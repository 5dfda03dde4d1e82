/** From an unformatted partition to a loaded kernel: make_fs on the first boot, the host tool's copy
    of the kernel, and the second boot (boot/loader.c, boot/fs.c, finux_tool/finux.py). */
module BootRoundTrip {
  import opened Common
  import opened Bytes
  import opened HardDisk
  import opened PartitionTable
  import opened FinuxFs
  import opened Loader
  import SectorMap
  import FinuxTool

  /** A disk whose first logical partition is the Finux one.  The tables of the other logical
      partitions do not lie inside it, it is a multiple of 4096 sectors long, and the disk's sector
      numbers have 28 bits. */
  ghost predicate Layout(d: seq<byte>, used: nat, x: nat, e: nat, chain: seq<Logical>) {
    && SECTOR_SIZE <= |d| <= SECTOR_SIZE * 0x1000_0000
    && IsMbr(Sector(d, 0), used, x, e) && used < 4 && FinuxTool.ToolMbr(Sector(d, 0), x, e)
    && ChainOnDisk(d, e, chain) && chain[0].part.kind == FINUX_SYSID && chain[0].part.cnt % 4096 == 0
    && var base := AbsoluteStart(e, chain, 0);
    && SECTOR_SIZE * (base + chain[0].part.cnt) <= |d|
    && forall i | 0 <= i < |chain| :: OutsideOf(e + chain[i].table, base, chain[0].part.cnt)
  }

  predicate OutsideOf(sector: nat, base: nat, cnt: nat) {
    sector <= base || base + cnt <= sector
  }

  /** Only sectors base+1 .. base+cnt-1 differ. */
  ghost predicate SameOutside(d: seq<byte>, d': seq<byte>, base: nat, cnt: nat) {
    && |d'| == |d| && SECTOR_SIZE * (base + cnt) <= |d| && cnt > 0
    && d'[..SECTOR_SIZE * (base + 1)] == d[..SECTOR_SIZE * (base + 1)]
    && d'[SECTOR_SIZE * (base + cnt)..] == d[SECTOR_SIZE * (base + cnt)..]
  }

  lemma SectorOutside(d: seq<byte>, d': seq<byte>, base: nat, cnt: nat, lba: nat)
    requires SameOutside(d, d', base, cnt) && OutsideOf(lba, base, cnt) && SECTOR_SIZE * (lba + 1) <= |d|
    ensures Sector(d', lba) == Sector(d, lba)
  {
    var o := SECTOR_SIZE * lba;
    if lba <= base {
      assert d'[..SECTOR_SIZE * (base + 1)][o..o + SECTOR_SIZE] == d'[o..o + SECTOR_SIZE];
      assert d[..SECTOR_SIZE * (base + 1)][o..o + SECTOR_SIZE] == d[o..o + SECTOR_SIZE];
    } else {
      var q := SECTOR_SIZE * (base + cnt);
      assert d'[q..][o - q..o - q + SECTOR_SIZE] == d'[o..o + SECTOR_SIZE];
      assert d[q..][o - q..o - q + SECTOR_SIZE] == d[o..o + SECTOR_SIZE];
    }
  }

  /** The partition tables survive whatever happens inside the partition. */
  lemma LayoutStays(d: seq<byte>, d': seq<byte>, used: nat, x: nat, e: nat, chain: seq<Logical>)
    requires Layout(d, used, x, e, chain) && chain[0].part.cnt > 0
    requires SameOutside(d, d', AbsoluteStart(e, chain, 0), chain[0].part.cnt)
    ensures Layout(d', used, x, e, chain)
  {
    var base, cnt := AbsoluteStart(e, chain, 0), chain[0].part.cnt;
    SectorOutside(d, d', base, cnt, 0);
    forall i | 0 <= i < |chain| ensures LinkOnDisk(d', e, chain, i) {
      assert LinkOnDisk(d, e, chain, i) && OutsideOf(e + chain[i].table, base, cnt);
      SectorOutside(d, d', base, cnt, e + chain[i].table);
    }
  }

  lemma PutIsInside(d: seq<byte>, base: nat, cnt: nat, off: nat, data: seq<byte>)
    requires SECTOR_SIZE * (base + cnt) <= |d| && cnt > 0
    requires SECTOR_SIZE * (base + 1) <= off && off + |data| <= SECTOR_SIZE * (base + cnt)
    ensures SameOutside(d, Put(d, off, data), base, cnt)
  {
    PutElsewhere(d, off, data, 0, SECTOR_SIZE * (base + 1));
    PutElsewhere(d, off, data, SECTOR_SIZE * (base + cnt), |d|);
    var d' := Put(d, off, data);
    assert d'[..SECTOR_SIZE * (base + 1)] == d'[0..SECTOR_SIZE * (base + 1)];
    assert d'[SECTOR_SIZE * (base + cnt)..] == d'[SECTOR_SIZE * (base + cnt)..|d|];
  }

  // ----- The formatted partition -----

  /** What the tool and the loader read from a partition just formatted. */
  ghost predicate FreshFs(d: seq<byte>, base: nat, cnt: word) {
    && Fits(d, base, cnt) && SuperAt(d, base) == Geometry(base, cnt)
    && var sb := Geometry(base, cnt);
    && d[SECTOR_SIZE * sb.inode_map_start..SECTOR_SIZE * sb.inode_map_start + 100] == [1] + Zeros(99)
    && d[SECTOR_SIZE * sb.sector_map_start..SECTOR_SIZE * sb.inode_array_start]
      == Zeros(SECTOR_SIZE * sb.sector_map_sectors)
    && InodeAt(d, SECTOR_SIZE * sb.inode_array_start) == RootInode(base, cnt)
    && d[SECTOR_SIZE * sb.root_start..SECTOR_SIZE * sb.first_data_sector] == Zeros(SECTOR_SIZE * 4)
  }

  lemma Part3(a: seq<byte>, b: seq<byte>, c: seq<byte>)
    ensures (a + b + c)[|a|..|a| + |b|] == b
  {
  }

  /** A piece of what was written, read back. */
  lemma PieceOfPut(d: seq<byte>, off: nat, a: seq<byte>, b: seq<byte>, c: seq<byte>)
    requires off + |a| + |b| + |c| <= |d|
    ensures Put(d, off, a + b + c)[off + |a|..off + |a| + |b|] == b
  {
    hide Put;
    var d' := Put(d, off, a + b + c);
    assert d'[off..off + |a + b + c|] == a + b + c;
    Part3(a, b, c);
    assert d'[off + |a|..off + |a| + |b|] == d'[off..off + |a + b + c|][|a|..|a| + |b|];
  }

  /** Five neighbouring pieces read back one by one. */
  lemma PiecesOfPut(d: seq<byte>, o: nat, a: seq<byte>, b: seq<byte>, c: seq<byte>, e: seq<byte>, f: seq<byte>)
    requires o + |a| + |b| + |c| + |e| + |f| <= |d|
    ensures var d' := Put(d, o, a + b + c + e + f);
      && d'[o + |a|..o + |a| + |b|] == b
      && d'[o + |a| + |b|..o + |a| + |b| + |c|] == c
      && d'[o + |a| + |b| + |c|..o + |a| + |b| + |c| + |e|] == e
      && d'[o + |a| + |b| + |c| + |e|..o + |a| + |b| + |c| + |e| + |f|] == f
  {
    hide Put;
    assert a + b + c + e + f == a + b + (c + e + f);
    PieceOfPut(d, o, a, b, c + e + f);
    assert a + b + c + e + f == (a + b) + c + (e + f);
    PieceOfPut(d, o, a + b, c, e + f);
    PieceOfPut(d, o, a + b + c, e, f);
    assert a + b + c + e + f == (a + b + c + e) + f + [];
    PieceOfPut(d, o, a + b + c + e, f, []);
  }

  lemma FormatIsFresh(d: seq<byte>, base: nat, cnt: word, junk: seq<byte>)
    requires Fits(d, base, cnt) && |junk| == 452
    ensures FreshFs(Put(d, SECTOR_SIZE * (base + 1), FormatImage(base, cnt, junk)), base, cnt)
  {
    hide Put, Encode, InodeBytes, InodeAt, SuperAt;
    FormatReadsBack(d, base, cnt, junk);
    var sb, o := Geometry(base, cnt), SECTOR_SIZE * (base + 1);
    var inode0 := InodeBytes(RootInode(base, cnt));
    var inodeMap, inodes := [1] + Zeros(511), inode0 + Zeros(SECTOR_SIZE * 4 - 16);
    var d' := Put(d, o, FormatImage(base, cnt, junk));
    PiecesOfPut(d, o, Encode(SuperWords(sb)) + junk, inodeMap, Zeros(SECTOR_SIZE * sb.sector_map_sectors), inodes,
        Zeros(SECTOR_SIZE * 4));
    var om, oi := SECTOR_SIZE * sb.inode_map_start, SECTOR_SIZE * sb.inode_array_start;
    assert d'[om..om + 100] == d'[om..om + 512][..100] == inodeMap[..100] == [1] + Zeros(99);
    assert d'[oi..oi + 16] == d'[oi..oi + SECTOR_SIZE * 4][..16] == inodes[..16] == inode0;
    InodeRoundTrip(d', oi, RootInode(base, cnt));
  }

  /** The root directory as a formatted disk describes it: one file of mode 2 that fills exactly the
      sectors between the inode array and the data area. */
  lemma FormattedRoot(d: seq<byte>, base: nat, cnt: word, junk: seq<byte>)
    requires Fits(d, base, cnt) && |junk| == 452
    ensures var d' := Put(d, SECTOR_SIZE * (base + 1), FormatImage(base, cnt, junk));
      var s := SuperAt(d', base);
      512 * s.inode_array_start + 16 * s.root_inode + 16 <= |d'|
      && var i := InodeAt(d', 512 * s.inode_array_start + 16 * s.root_inode);
      && i.mode == 2 == FinuxTool.NewInode(Geometry(base, cnt), 0, 1).mode && i.file_size == 512 * i.file_sector_cnt
      && i.file_start_sect == s.root_start && i.file_start_sect + i.file_sector_cnt == s.first_data_sector
  {
    hide FormatImage, Put, SuperAt, InodeAt;
    FormatIsFresh(d, base, cnt, junk);
  }

  /** All other inodes of a formatted partition are zero. */
  lemma FormattedInodes(d: seq<byte>, base: nat, cnt: word, junk: seq<byte>, k: nat)
    requires Fits(d, base, cnt) && |junk| == 452 && 1 <= k < 100
    ensures var d' := Put(d, SECTOR_SIZE * (base + 1), FormatImage(base, cnt, junk));
      var o := 512 * SuperAt(d', base).inode_array_start + 16 * k;
      o + 16 <= |d'| && InodeAt(d', o) == Inode(0, 0, 0, 0)
  {
    hide Put, Encode, InodeBytes, InodeAt, SuperAt;
    FormatReadsBack(d, base, cnt, junk);
    var sb, o := Geometry(base, cnt), SECTOR_SIZE * (base + 1);
    var inodes := InodeBytes(RootInode(base, cnt)) + Zeros(SECTOR_SIZE * 4 - 16);
    var d' := Put(d, o, FormatImage(base, cnt, junk));
    PiecesOfPut(d, o, Encode(SuperWords(sb)) + junk, [1] + Zeros(511), Zeros(SECTOR_SIZE * sb.sector_map_sectors),
                inodes, Zeros(SECTOR_SIZE * 4));
    var oi := SECTOR_SIZE * sb.inode_array_start;
    SliceOfSlice(d', oi, oi + SECTOR_SIZE * 4, 16 * k, 16 * k + 16);
    assert inodes[16 * k..16 * k + 16] == Zeros(16);
    ZeroInode(d', oi + 16 * k);
  }

  lemma ZeroInode(d: seq<byte>, off: nat)
    requires off + 16 <= |d| && d[off..off + 16] == Zeros(16)
    ensures InodeAt(d, off) == Inode(0, 0, 0, 0)
  {
    InodeLayout(d, off);
    forall j | 0 <= j < 4 ensures WordAt(d, off + 4 * j) == 0 {
      SliceOfSlice(d, off, off + 16, 4 * j, 4 * j + 4);
      assert d[off + 4 * j..off + 4 * j + 4] == Zeros(16)[4 * j..4 * j + 4] == [0, 0, 0, 0];
    }
    assert WordAt(d, off + 4 * 0) == 0 && WordAt(d, off + 4 * 1) == 0;
    assert WordAt(d, off + 4 * 2) == 0 && WordAt(d, off + 4 * 3) == 0;
  }

  // ----- The copied kernel -----

  /** The file fits behind the file system's tables, and its bytes can be counted in a word. */
  predicate FileFits(base: nat, cnt: word, file: seq<byte>) {
    0 < |file| < U32 && FirstData(base, cnt) + FinuxTool.SectorsFor(|file|) <= base + cnt && cnt % 4096 == 0
  }

  /** What the loader reads after the copy. */
  ghost predicate KernelStored(d: seq<byte>, base: nat, cnt: word, file: seq<byte>)
    requires FileFits(base, cnt, file)
  {
    && Fits(d, base, cnt) && SuperAt(d, base) == Geometry(base, cnt)
    && var sb := Geometry(base, cnt);
    var oi, o, od := SECTOR_SIZE * sb.inode_array_start, SECTOR_SIZE * sb.root_start,
        SECTOR_SIZE * sb.first_data_sector;
    && InodeAt(d, oi + 16) == FinuxTool.NewInode(sb, 0, |file|)
    && d[o..o + 512] == EncodeWord(1) + KERNEL_NAME + Zeros(496)
    && od + |file| <= |d| && d[od..od + |file|] == file
  }

  lemma FreshIsMountable(d: seq<byte>, base: nat, cnt: word, file: seq<byte>)
    requires FreshFs(d, base, cnt) && FileFits(base, cnt, file) && SECTOR_SIZE * (base + cnt) <= |d|
    ensures FinuxTool.Mountable(d, base)
    ensures FinuxTool.RoomAtStart(d, SuperAt(d, base), |file|)
  {
    var sb := Geometry(base, cnt);
    GeometryApart(base, cnt);
    var o := SECTOR_SIZE * sb.inode_map_start;
    assert d[o] == d[o..o + 100][0] == 1;
    assert FinuxTool.InodeMap(d, sb)[1] == 0;
    assert FinuxTool.SectorMapOf(d, sb) == Zeros(SECTOR_SIZE * sb.sector_map_sectors);
    assert SectorMap.Units(FinuxTool.SectorsFor(|file|)) < FinuxTool.MapBytes(sb);
  }

  /** No entry of the empty directory has a name that is not all zero, and the first is unused. */
  lemma FreshRoot(d: seq<byte>, o: nat)
    requires o + SECTOR_SIZE * 4 <= |d| && d[o..o + SECTOR_SIZE * 4] == Zeros(SECTOR_SIZE * 4)
    ensures !FinuxTool.NameInRoot(d, o, 128, KERNEL_NAME)
    ensures FinuxTool.Takes(d, o, 0, KERNEL_NAME)
  {
    forall k | 0 <= k < 128 ensures FinuxTool.EntryName(d, o, k) != KERNEL_NAME {
      assert FinuxTool.EntryName(d, o, k)[0] == d[o..o + SECTOR_SIZE * 4][16 * k + 4] == 0;
    }
    assert d[o..o + 4] == d[o..o + SECTOR_SIZE * 4][..4] == Zeros(4);
  }

  /** The pieces of a partition the loader depends on. */
  datatype View = View(super: seq<byte>, inode: seq<byte>, root: seq<byte>, data: seq<byte>)

  function ViewOf(d: seq<byte>, base: nat, cnt: word, size: nat): View
    requires Fits(d, base, cnt) && SECTOR_SIZE * FirstData(base, cnt) + size <= |d|
  {
    var sb := Geometry(base, cnt);
    var oi, o, od := SECTOR_SIZE * sb.inode_array_start, SECTOR_SIZE * sb.root_start,
        SECTOR_SIZE * sb.first_data_sector;
    View(Sector(d, base + 1), d[oi + 16..oi + 32], d[o..o + SECTOR_SIZE * 4], d[od..od + size])
  }

  lemma GeometryOrder(base: nat, cnt: word)
    requires FirstData(base, cnt) < U32
    ensures var sb := Geometry(base, cnt);
      && base + 2 == sb.inode_map_start && sb.sector_map_start == base + 3
      && sb.inode_array_start == sb.sector_map_start + sb.sector_map_sectors 
      && sb.root_start == sb.inode_array_start + 4
      && sb.sector_map_sectors == SectorMapSectors(cnt) && sb.sector_cnt == cnt
      && sb.first_data_sector == sb.root_start + 4 == FirstData(base, cnt)
  {
  }

  /** With a multiple of 4096 sectors the formatter's tables do not overlap as the tool uses them. */
  lemma GeometryApart(base: nat, cnt: word)
    requires FirstData(base, cnt) < U32 && cnt % 4096 == 0
    ensures FinuxTool.TablesApart(Geometry(base, cnt))
    ensures FinuxTool.MapBytes(Geometry(base, cnt)) == SECTOR_SIZE * SectorMapSectors(cnt)
  {
    var q := cnt / 4096;
    assert cnt == 4096 * q;
    MapSize(q);
    GeometryOrder(base, cnt);
    hide Geometry, FirstData;
  }

  lemma MapSize(q: nat)
    ensures 4096 * q / 512 / 8 == q && (4096 * q + 7) / 8 == 512 * q
  {
    assert 4096 * q / 512 == 8 * q;
    assert 4096 * q + 7 == 8 * (512 * q) + 7;
  }

  /** Writing the file changes the data alone. */
  lemma DataView(d: seq<byte>, base: nat, cnt: word, file: seq<byte>)
    requires Fits(d, base, cnt) && SECTOR_SIZE * FirstData(base, cnt) + |file| <= |d|
    ensures ViewOf(Put(d, SECTOR_SIZE * FirstData(base, cnt), file), base, cnt, |file|)
       == ViewOf(d, base, cnt, |file|).(data := file)
  {
    GeometryOrder(base, cnt);
    hide Put, Geometry, FirstData;
    var sb, off := Geometry(base, cnt), SECTOR_SIZE * FirstData(base, cnt);
    var oi, o := SECTOR_SIZE * sb.inode_array_start, SECTOR_SIZE * sb.root_start;
    PutElsewhere(d, off, file, SECTOR_SIZE * (base + 1), SECTOR_SIZE * (base + 1) + SECTOR_SIZE);
    PutElsewhere(d, off, file, oi + 16, oi + 32);
    PutElsewhere(d, off, file, o, o + SECTOR_SIZE * 4);
  }

  /** Writing the inode array replaces inode 1. */
  lemma InodesView(d: seq<byte>, base: nat, cnt: word, size: nat, x: seq<byte>)
    requires Fits(d, base, cnt) && SECTOR_SIZE * FirstData(base, cnt) + size <= |d| && |x| == 1600
    ensures ViewOf(Put(d, SECTOR_SIZE * Geometry(base, cnt).inode_array_start, x), base, cnt, size)
         == ViewOf(d, base, cnt, size).(inode := x[16..32])
  {
    GeometryOrder(base, cnt);
    hide Put, Geometry, FirstData;
    var sb := Geometry(base, cnt);
    var oi, o, od := SECTOR_SIZE * sb.inode_array_start, SECTOR_SIZE * sb.root_start,
        SECTOR_SIZE * sb.first_data_sector;
    PutElsewhere(d, oi, x, SECTOR_SIZE * (base + 1), SECTOR_SIZE * (base + 1) + SECTOR_SIZE);
    PutElsewhere(d, oi, x, o, o + SECTOR_SIZE * 4);
    PutElsewhere(d, oi, x, od, od + size);
    PutInside(d, oi, x, 16, 32);
  }

  /** Writing a map changes none of the pieces. */
  lemma MapView(d: seq<byte>, base: nat, cnt: word, size: nat, off: nat, x: seq<byte>)
    requires Fits(d, base, cnt) && SECTOR_SIZE * FirstData(base, cnt) + size <= |d|
    requires SECTOR_SIZE * (base + 2) <= off && off + |x| <= SECTOR_SIZE * Geometry(base, cnt).inode_array_start
    ensures ViewOf(Put(d, off, x), base, cnt, size) == ViewOf(d, base, cnt, size)
  {
    GeometryOrder(base, cnt);
    hide Put, Geometry, FirstData;
    var sb := Geometry(base, cnt);
    var oi, o, od := SECTOR_SIZE * sb.inode_array_start, SECTOR_SIZE * sb.root_start,
        SECTOR_SIZE * sb.first_data_sector;
    PutElsewhere(d, off, x, SECTOR_SIZE * (base + 1), SECTOR_SIZE * (base + 1) + SECTOR_SIZE);
    PutElsewhere(d, off, x, oi + 16, oi + 32);
    PutElsewhere(d, off, x, o, o + SECTOR_SIZE * 4);
    PutElsewhere(d, off, x, od, od + size);
  }

  /** Writing the directory's first entry changes the root alone. */
  lemma EntryView(d: seq<byte>, base: nat, cnt: word, size: nat, x: seq<byte>)
    requires Fits(d, base, cnt) && SECTOR_SIZE * FirstData(base, cnt) + size <= |d| && |x| == 16
    ensures ViewOf(Put(d, SECTOR_SIZE * Geometry(base, cnt).root_start, x), base, cnt, size)
         == ViewOf(d, base, cnt, size).(root := x + ViewOf(d, base, cnt, size).root[16..])
  {
    GeometryOrder(base, cnt);
    hide Put, Geometry, FirstData;
    var sb := Geometry(base, cnt);
    var oi, o, od := SECTOR_SIZE * sb.inode_array_start, SECTOR_SIZE * sb.root_start,
        SECTOR_SIZE * sb.first_data_sector;
    PutElsewhere(d, o, x, SECTOR_SIZE * (base + 1), SECTOR_SIZE * (base + 1) + SECTOR_SIZE);
    PutElsewhere(d, o, x, oi + 16, oi + 32);
    PutElsewhere(d, o, x, od, od + size);
    PutElsewhere(d, o, x, o + 16, o + SECTOR_SIZE * 4);
    var d' := Put(d, o, x);
    assert d[o + 16..o + SECTOR_SIZE * 4] == d[o..o + SECTOR_SIZE * 4][16..];
    assert d'[o..o + SECTOR_SIZE * 4] == d'[o..o + 16] + d'[o + 16..o + SECTOR_SIZE * 4];
  }

  /** Together the tool's table writes put the new inode and the data in place. */
  lemma TablesView(d: seq<byte>, base: nat, cnt: word, file: seq<byte>)
    requires FreshFs(d, base, cnt) && FileFits(base, cnt, file) && SECTOR_SIZE * (base + cnt) <= |d|
    ensures var sb := Geometry(base, cnt);
      ViewOf(FinuxTool.WithTables(d, sb, 1, 0, file), base, cnt, |file|)
      == ViewOf(d, base, cnt, |file|).(data := file, inode := InodeBytes(FinuxTool.NewInode(sb, 0, |file|)))
  {
    hide Put, ViewOf, InodeBytes, InodeAt, SuperAt, FinuxTool.InodesBytes, FinuxTool.MapBytes, SectorMap.Marked;
    var sb := Geometry(base, cnt);
    GeometryApart(base, cnt);
    var was := FinuxTool.InodesAt(d, SECTOR_SIZE * sb.inode_array_start, 100);
    var inodes := was[1 := FinuxTool.NewInode(sb, 0, |file|)];
    var d1 := Put(d, SECTOR_SIZE * sb.first_data_sector, file);
    DataView(d, base, cnt, file);
    InodesView(d1, base, cnt, |file|, FinuxTool.InodesBytes(inodes));
    FinuxTool.InodesBytesAt(inodes, 1);
    var d2 := Put(d1, SECTOR_SIZE * sb.inode_array_start, FinuxTool.InodesBytes(inodes));
    var inodeMap := FinuxTool.InodeMap(d, sb)[1 := 1];
    MapView(d2, base, cnt, |file|, SECTOR_SIZE * sb.inode_map_start, inodeMap);
    var d3 := Put(d2, SECTOR_SIZE * sb.inode_map_start, inodeMap);
    var sectorMap := SectorMap.Marked(FinuxTool.SectorMapOf(d, sb), 0, FinuxTool.SectorsFor(|file|));
    MapView(d3, base, cnt, |file|, SECTOR_SIZE * sb.sector_map_start, sectorMap);
  }

  lemma SuperFromSector(d: seq<byte>, d': seq<byte>, base: nat)
    requires SECTOR_SIZE * (base + 2) <= |d| == |d'| && Sector(d, base + 1) == Sector(d', base + 1)
    ensures SuperAt(d', base) == SuperAt(d, base)
  {
  }

  lemma FreshChoice(d: seq<byte>, base: nat, cnt: word, n: nat, size: nat)
    requires FreshFs(d, base, cnt)
    requires FinuxTool.MapBytes(Geometry(base, cnt)) <= SECTOR_SIZE * SectorMapSectors(cnt)
    requires FinuxTool.Chosen(d, Geometry(base, cnt), n, 0, size)
    ensures n == 1
  {
    var inodeMap := FinuxTool.InodeMap(d, Geometry(base, cnt));
    assert inodeMap[0] == 1 && inodeMap[1] == 0;
  }

  lemma FirstEntryTaken(t: seq<byte>, d': seq<byte>, root: Inode, slot: nat)
    requires SECTOR_SIZE * (root.file_start_sect + 4) <= |t| && root.file_sector_cnt == 4
    requires t[SECTOR_SIZE * root.file_start_sect..SECTOR_SIZE * (root.file_start_sect + 4)] == Zeros(SECTOR_SIZE * 4)
    requires FinuxTool.EntryWritten(t, d', root, slot, 1, KERNEL_NAME)
    ensures slot == 0 && d' == Put(t, SECTOR_SIZE * root.file_start_sect, FinuxTool.EntryBytes(1, KERNEL_NAME))
  {
    hide FinuxTool.Takes, Put, FinuxTool.EntryBytes;
    FreshRoot(t, SECTOR_SIZE * root.file_start_sect);
  }

  lemma ViewTellsStored(d: seq<byte>, base: nat, cnt: word, file: seq<byte>)
    requires FileFits(base, cnt, file) && Fits(d, base, cnt) && SECTOR_SIZE * FirstData(base, cnt) + |file| <= |d|
    requires SuperAt(d, base) == Geometry(base, cnt)
    requires var v := ViewOf(d, base, cnt, |file|);
      && v.inode == InodeBytes(FinuxTool.NewInode(Geometry(base, cnt), 0, |file|))
      && v.root == FinuxTool.EntryBytes(1, KERNEL_NAME) + Zeros(SECTOR_SIZE * 4)[16..]
      && v.data == file
    ensures KernelStored(d, base, cnt, file)
  {
    hide SuperAt, InodeAt, InodeBytes;
    var sb := Geometry(base, cnt);
    InodeRoundTrip(d, SECTOR_SIZE * sb.inode_array_start + 16, FinuxTool.NewInode(sb, 0, |file|));
    var o, x := SECTOR_SIZE * sb.root_start, FinuxTool.EntryBytes(1, KERNEL_NAME);
    assert x == EncodeWord(1) + KERNEL_NAME;
    assert d[o..o + 512] == d[o..o + SECTOR_SIZE * 4][..512];
    assert (x + Zeros(SECTOR_SIZE * 4)[16..])[..512] == x + Zeros(496);
  }

  /** The copy into a fresh file system takes inode 1, the start of the data area and the first
      directory entry, and leaves the kernel where the loader will look for it. */
  lemma CopyStoresKernel(d: seq<byte>, d': seq<byte>, base: nat, cnt: word, file: seq<byte>, n: nat, slot: nat)
    requires FreshFs(d, base, cnt) && FileFits(base, cnt, file) && SECTOR_SIZE * (base + cnt) <= |d|
    requires FinuxTool.Chosen(d, Geometry(base, cnt), n, 0, |file|)
    requires FinuxTool.EntryWritten(FinuxTool.WithTables(d, Geometry(base, cnt), n, 0, file), d',
          RootInode(base, cnt), slot, n, KERNEL_NAME)
    ensures n == 1 && slot == 0 && KernelStored(d', base, cnt, file)
  {
    hide FinuxTool.WithTables, FinuxTool.EntryWritten, FinuxTool.Chosen, FinuxTool.MapBytes, SectorMapSectors,
         Put, SuperAt, InodeAt, InodeBytes, KernelStored;
    var sb := Geometry(base, cnt);
    GeometryApart(base, cnt);
    FreshChoice(d, base, cnt, n, |file|);
    var t := FinuxTool.WithTables(d, sb, 1, 0, file);
    TablesView(d, base, cnt, file);
    FirstEntryTaken(t, d', RootInode(base, cnt), slot);
    EntryView(t, base, cnt, |file|, FinuxTool.EntryBytes(1, KERNEL_NAME));
    SuperFromSector(d, d', base);
    ViewTellsStored(d', base, cnt, file);
  }

  /** Two more writes inside the partition. */
  lemma PutsStayInside(d: seq<byte>, d': seq<byte>, base: nat, cnt: nat, o1: nat, x1: seq<byte>, o2: nat, x2: seq<byte>)
    requires SameOutside(d, d', base, cnt)
    requires SECTOR_SIZE * (base + 1) <= o1 && o1 + |x1| <= SECTOR_SIZE * (base + cnt)
    requires SECTOR_SIZE * (base + 1) <= o2 && o2 + |x2| <= SECTOR_SIZE * (base + cnt)
    ensures SameOutside(d, Put(Put(d', o1, x1), o2, x2), base, cnt)
  {
    hide Put;
    PutIsInside(d', base, cnt, o1, x1);
    PutIsInside(Put(d', o1, x1), base, cnt, o2, x2);
  }

  /** The writes of the tool's tables stay inside the partition. */
  lemma TablesStayInside(d: seq<byte>, base: nat, cnt: word, file: seq<byte>)
    requires FreshFs(d, base, cnt) && FileFits(base, cnt, file) && SECTOR_SIZE * (base + cnt) <= |d|
    ensures SameOutside(d, FinuxTool.WithTables(d, Geometry(base, cnt), 1, 0, file), base, cnt)
  {
    hide Put, FinuxTool.InodesBytes, FinuxTool.InodesAt, SectorMap.Marked, SameOutside, SuperAt, InodeAt;
    var sb := Geometry(base, cnt);
    GeometryApart(base, cnt);
    var was := FinuxTool.InodesAt(d, SECTOR_SIZE * sb.inode_array_start, 100);
    var inodes := FinuxTool.InodesBytes(was[1 := FinuxTool.NewInode(sb, 0, |file|)]);
    var d1 := Put(d, SECTOR_SIZE * sb.first_data_sector, file);
    var d2 := Put(d1, SECTOR_SIZE * sb.inode_array_start, inodes);
    assert SameOutside(d, d, base, cnt) by { Unchanged(d, base, cnt); }
    PutsStayInside(d, d, base, cnt, SECTOR_SIZE * sb.first_data_sector, file, SECTOR_SIZE * sb.inode_array_start,
        inodes);
    PutsStayInside(d, d2, base, cnt, SECTOR_SIZE * sb.inode_map_start, FinuxTool.InodeMap(d, sb)[1 := 1],
        SECTOR_SIZE * sb.sector_map_start,
                   SectorMap.Marked(FinuxTool.SectorMapOf(d, sb), 0, FinuxTool.SectorsFor(|file|)));
  }

  lemma Unchanged(d: seq<byte>, base: nat, cnt: nat)
    requires SECTOR_SIZE * (base + cnt) <= |d| && cnt > 0
    ensures SameOutside(d, d, base, cnt)
  {
  }

  /** The writes of the copy stay inside the partition. */
  lemma CopyStaysInside(d: seq<byte>, d': seq<byte>, base: nat, cnt: word, file: seq<byte>)
    requires FreshFs(d, base, cnt) && FileFits(base, cnt, file) && SECTOR_SIZE * (base + cnt) <= |d|
    requires d' == Put(FinuxTool.WithTables(d, Geometry(base, cnt), 1, 0, file),
          SECTOR_SIZE * Geometry(base, cnt).root_start,
                       FinuxTool.EntryBytes(1, KERNEL_NAME))
    ensures SameOutside(d, d', base, cnt)
  {
    hide Put, FinuxTool.WithTables, FreshFs;
    TablesStayInside(d, base, cnt, file);
    PutIsInside(FinuxTool.WithTables(d, Geometry(base, cnt), 1, 0, file), base, cnt,
        SECTOR_SIZE * Geometry(base, cnt).root_start,
                FinuxTool.EntryBytes(1, KERNEL_NAME));
  }

  // ----- The second boot -----

  /** The kernel's entry is the first, and the byte behind its twelve-character name is zero. */
  lemma KernelEntryMatches(d: seq<byte>, o: nat, root: seq<byte>)
    requires o + 512 <= |d| && d[o..o + 512] == EncodeWord(1) + KERNEL_NAME + Zeros(496)
    requires |root| > ROOT_AREA_SIZE && root[..512] == d[o..o + 512]
    ensures FirstMatch(root, KERNEL_NAME, 0) && EntryInode(root, 0) == 1
    ensures forall i: nat | FirstMatch(root, KERNEL_NAME, i) :: i == 0
  {
    var s := EncodeWord(1) + KERNEL_NAME + Zeros(496);
    assert root[4..16] == root[..512][4..16] == s[4..16] == KERNEL_NAME;
    assert root[16] == root[..512][16] == s[16] == 0;
    assert NameAt(root, 4, KERNEL_NAME);
    assert ComparesEqual(KERNEL_NAME, root, 16 * 0 + 4);
    assert root[..4] == root[..512][..4] == s[..4] == EncodeWord(1);
    DecodeEncode(1);
  }

  /** The loaded image begins with the file, and the reported size is the file's. */
  lemma LoadedImage(d: seq<byte>, base: nat, cnt: word, file: seq<byte>, m: seq<byte>, detected: word)
    requires FileFits(base, cnt, file) && KernelStored(d, base, cnt, file) && SECTOR_SIZE * (base + cnt) <= |d|
    requires KERNEL_LOAD_ADDRESS + SECTOR_SIZE * FinuxTool.SectorsFor(|file|) <= |m|
    ensures Loadable(d, FinuxTool.NewInode(Geometry(base, cnt), 0, |file|), |m|)
    ensures var m' := WithKernel(m, d, FinuxTool.NewInode(Geometry(base, cnt), 0, |file|), detected);
      && m'[KERNEL_LOAD_ADDRESS..KERNEL_LOAD_ADDRESS + |file|] == file
      && m'[KERNEL_INFO_ADDRESS..KERNEL_INFO_ADDRESS + 12] == Encode([|file|, KERNEL_LOAD_ADDRESS, detected])
  {
    hide Put, SuperAt, InodeAt, Encode;
    var ino := FinuxTool.NewInode(Geometry(base, cnt), 0, |file|);
    var image, info := Sectors(d, ino.file_start_sect, ino.file_sector_cnt), KernelInfo(ino.file_size, detected);
    var m1 := Put(m, KERNEL_LOAD_ADDRESS, image);
    var od := SECTOR_SIZE * ino.file_start_sect;
    assert image[..|file|] == d[od..od + |file|] == file;
    PutInside(m, KERNEL_LOAD_ADDRESS, image, 0, |file|);
    PutElsewhere(m1, KERNEL_INFO_ADDRESS, info, KERNEL_LOAD_ADDRESS, KERNEL_LOAD_ADDRESS + |file|);
    PutInside(m1, KERNEL_INFO_ADDRESS, info, 0, 12);
    assert info[0..12] == info;
  }

  /** make_fs: where the partition is, and whether it had to be formatted. */
  method MakeFs(hd: Disk, junk: seq<byte>, ghost used: nat, ghost x: nat, ghost e: nat, ghost chain: seq<Logical>)
    returns (made: bool, base_sector: nat)
    requires Layout(hd.bytes, used, x, e, chain) && 2 * |chain| <= 10 && |junk| == 452
    requires AbsoluteStart(e, chain, 0) < U32 && Fits(hd.bytes, AbsoluteStart(e, chain, 0), chain[0].part.cnt)
    modifies hd
    ensures base_sector == AbsoluteStart(e, chain, 0)
    ensures made <==> !HasMagic(old(hd.bytes), base_sector)
    ensures hd.bytes ==
      if made then
        Put(old(hd.bytes), SECTOR_SIZE * (base_sector + 1), FormatImage(base_sector, chain[0].part.cnt, junk))
                        else old(hd.bytes)
  {
    hide FormatImage, Put, Layout, IsMbr, ChainOnDisk, Entry, SuperAt;
    LayoutFacts(hd.bytes, used, x, e, chain);
    var none := Part(0, 0, 0);
    var primary := new Part[4](i => none);
    var logical := new Part[10](i => none);
    var found := LocateFinux(hd, primary, logical, PART_EMPTY, used, x, e, chain, 0);
    base_sector := found.base;
    made := Format(hd, base_sector, found.part, junk);
  }

  lemma OutsideTwice(d: seq<byte>, d1: seq<byte>, d2: seq<byte>, base: nat, cnt: nat)
    requires SameOutside(d, d1, base, cnt) && SameOutside(d1, d2, base, cnt)
    ensures SameOutside(d, d2, base, cnt)
  {
  }

  /** Formatting leaves the partition tables as they are and the partition fresh. */
  lemma FormatStaysInside(d: seq<byte>, base: nat, cnt: word, junk: seq<byte>)
    requires Fits(d, base, cnt) && |junk| == 452 && FirstData(base, cnt) <= base + cnt
    requires SECTOR_SIZE * (base + cnt) <= |d|
    ensures SameOutside(d, Put(d, SECTOR_SIZE * (base + 1), FormatImage(base, cnt, junk)), base, cnt)
  {
    hide FormatImage, Put;
    PutIsInside(d, base, cnt, SECTOR_SIZE * (base + 1), FormatImage(base, cnt, junk));
  }

  /** The tool finds the partition where the loader finds it. */
  lemma ToolFindsIt(d: seq<byte>, used: nat, x: nat, e: nat, chain: seq<Logical>)
    requires Layout(d, used, x, e, chain)
    ensures FinuxTool.FirstIsFinux(d, x, e)
    ensures e + Entry(Sector(d, e), 0).first == AbsoluteStart(e, chain, 0)
  {
    assert LinkOnDisk(d, e, chain, 0);
  }

  /** The first boot, which formats, and the host tool's copy of the kernel. */
  method FormatAndCopy(hd: Disk, file: seq<byte>, junk: seq<byte>, ghost used: nat, ghost x: nat, ghost e: nat,
                       ghost chain: seq<Logical>)
    requires Layout(hd.bytes, used, x, e, chain) && 2 * |chain| <= 10 && |junk| == 452
    requires FileFits(AbsoluteStart(e, chain, 0), chain[0].part.cnt, file)
    requires !HasMagic(hd.bytes, AbsoluteStart(e, chain, 0))
    modifies hd
    ensures SameOutside(old(hd.bytes), hd.bytes, AbsoluteStart(e, chain, 0), chain[0].part.cnt)
    ensures KernelStored(hd.bytes, AbsoluteStart(e, chain, 0), chain[0].part.cnt, file)
  {
    hide Layout, SameOutside, Put, FormatImage, FreshFs, KernelStored, FinuxTool.WithTables, FinuxTool.EntryWritten,
         FinuxTool.Chosen, FinuxTool.RoomAtStart, FinuxTool.Mountable, FinuxTool.NameInRoot, FinuxTool.ToolBase,
             SuperAt, InodeAt;
    LayoutBounds(hd.bytes, used, x, e, chain);
    ghost var d0, base, cnt := hd.bytes, AbsoluteStart(e, chain, 0), chain[0].part.cnt;
    var made, base_sector := MakeFs(hd, junk, used, x, e, chain);
    ghost var d1 := hd.bytes;
    FormatIsFresh(d0, base, cnt, junk);
    FormatStaysInside(d0, base, cnt, junk);
    LayoutStays(d0, d1, used, x, e, chain);
    ToolFindsIt(d1, used, x, e, chain);
    FreshIsMountable(d1, base, cnt, file);
    FreshFacts(d1, base, cnt);
    hd.pos := 0;
    FinuxTool.FirstIsFound(d1, x, e);
    var part := FinuxTool.FindPartBase(hd);
    var c := FinuxTool.Cp(hd, part.lba, KERNEL_NAME, file);
    CopyStoresKernel(d1, hd.bytes, base, cnt, file, c.inode_num, c.slot);
    CopyWroteEntry(d1, hd.bytes, base, cnt, file, c.slot);
    CopyStaysInside(d1, hd.bytes, base, cnt, file);
    OutsideTwice(d0, d1, hd.bytes, base, cnt);
  }

  /** What the loader's search needs. */
  lemma LayoutFacts(d: seq<byte>, used: nat, x: nat, e: nat, chain: seq<Logical>)
    requires Layout(d, used, x, e, chain)
    ensures SECTOR_SIZE <= |d| <= SECTOR_SIZE * 0x1000_0000
    ensures IsMbr(Sector(d, 0), used, x, e) && used < 4
    ensures forall j | 0 <= j < used :: Entry(Sector(d, 0), j).kind != FINUX_SYSID
    ensures ChainOnDisk(d, e, chain) && |chain| > 0 && chain[0].part.kind == FINUX_SYSID
  {
    hide Entry;
  }

  lemma LayoutBounds(d: seq<byte>, used: nat, x: nat, e: nat, chain: seq<Logical>)
    requires Layout(d, used, x, e, chain)
    ensures |chain| > 0
    ensures SECTOR_SIZE * (AbsoluteStart(e, chain, 0) + chain[0].part.cnt) <= |d| <= SECTOR_SIZE * 0x1000_0000
  {
  }

  lemma FreshFacts(d: seq<byte>, base: nat, cnt: word)
    requires FreshFs(d, base, cnt)
    ensures Fits(d, base, cnt) && SuperAt(d, base) == Geometry(base, cnt)
    ensures InodeAt(d, SECTOR_SIZE * Geometry(base, cnt).inode_array_start) == RootInode(base, cnt)
    ensures !FinuxTool.NameInRoot(d, SECTOR_SIZE * Geometry(base, cnt).root_start, 128, KERNEL_NAME)
  {
    FreshRoot(d, SECTOR_SIZE * Geometry(base, cnt).root_start);
  }

  lemma CopyWroteEntry(d: seq<byte>, d': seq<byte>, base: nat, cnt: word, file: seq<byte>, slot: nat)
    requires FreshFs(d, base, cnt) && FileFits(base, cnt, file) && SECTOR_SIZE * (base + cnt) <= |d| && slot == 0
    requires FinuxTool.EntryWritten(FinuxTool.WithTables(d, Geometry(base, cnt), 1, 0, file), d',
          RootInode(base, cnt), slot, 1, KERNEL_NAME)
    ensures d' == Put(FinuxTool.WithTables(d, Geometry(base, cnt), 1, 0, file),
          SECTOR_SIZE * Geometry(base, cnt).root_start,
                      FinuxTool.EntryBytes(1, KERNEL_NAME))
  {
    hide Put, FinuxTool.WithTables;
  }

  /** The second boot: the partition is recognised, mounted, and the kernel loaded. */
  method Boot(hd: Disk, mem: Memory, ghost file: seq<byte>, junk: seq<byte>, behind: byte, DetectCount: word,
              ghost used: nat, ghost x: nat, ghost e: nat, ghost chain: seq<Logical>)
    requires Layout(hd.bytes, used, x, e, chain) && 2 * |chain| <= 10 && |junk| == 452
    requires FileFits(AbsoluteStart(e, chain, 0), chain[0].part.cnt, file)
    requires KernelStored(hd.bytes, AbsoluteStart(e, chain, 0), chain[0].part.cnt, file)
    requires KERNEL_LOAD_ADDRESS + SECTOR_SIZE * FinuxTool.SectorsFor(|file|) <= |mem.bytes|
    modifies hd, mem
    ensures hd.bytes == old(hd.bytes)
    ensures |mem.bytes| == |old(mem.bytes)|
    ensures mem.bytes[KERNEL_LOAD_ADDRESS..KERNEL_LOAD_ADDRESS + |file|] == file
    ensures mem.bytes[KERNEL_INFO_ADDRESS..KERNEL_INFO_ADDRESS + 12]
       == Encode([|file|, KERNEL_LOAD_ADDRESS, DetectCount])
  {
    hide Layout, Put, FormatImage, Encode, SuperAt, InodeAt, FirstMatch, ComparesEqual;
    LayoutBounds(hd.bytes, used, x, e, chain);
    ghost var d, base, cnt := hd.bytes, AbsoluteStart(e, chain, 0), chain[0].part.cnt;
    var made, base_sector := MakeFs(hd, junk, used, x, e, chain);
    assert !made;
    var super_block := GetSuperBlock(hd, base_sector);
    var inode_array := GetInodeArray(hd, super_block);
    var root_area := GetRootArea(hd, super_block, Zeros(ROOT_AREA_SIZE));
    var root := root_area + [behind];
    ghost var o := SECTOR_SIZE * super_block.root_start;
    assert root[..512] == d[o..o + 512];
    KernelEntryMatches(d, o, root);
    assert inode_array[1] == FinuxTool.NewInode(super_block, 0, |file|);
    LoadedImage(d, base, cnt, file, mem.bytes, DetectCount);
    var found, entry := LoaderKernel(hd, root, inode_array, mem, DetectCount);
    MatchMeansFound(root, entry);
  }

  lemma MatchMeansFound(root: seq<byte>, entry: nat)
    requires |root| > ROOT_AREA_SIZE && FirstMatch(root, KERNEL_NAME, 0)
    ensures FirstMatch(root, KERNEL_NAME, entry) ==> entry == 0
    ensures ComparesEqual(KERNEL_NAME, root, 16 * 0 + 4)
  {
  }

  /** Format, copy, boot: afterwards exactly the file's bytes stand at the load address, and its size
      is reported. */
  method FormatCopyBoot(hd: Disk, mem: Memory, file: seq<byte>, junk1: seq<byte>, junk2: seq<byte>, behind: byte,
                        DetectCount: word,
                        ghost used: nat, ghost x: nat, ghost e: nat, ghost chain: seq<Logical>)
    requires Layout(hd.bytes, used, x, e, chain) && 2 * |chain| <= 10 && |junk1| == 452 == |junk2|
    requires FileFits(AbsoluteStart(e, chain, 0), chain[0].part.cnt, file)
    requires !HasMagic(hd.bytes, AbsoluteStart(e, chain, 0))
    requires KERNEL_LOAD_ADDRESS + SECTOR_SIZE * FinuxTool.SectorsFor(|file|) <= |mem.bytes|
    modifies hd, mem
    ensures SameOutside(old(hd.bytes), hd.bytes, AbsoluteStart(e, chain, 0), chain[0].part.cnt)
    ensures |mem.bytes| == |old(mem.bytes)|
    ensures mem.bytes[0x20_0000..0x20_0000 + |file|] == file
    ensures mem.bytes[0x10_0000..0x10_0000 + 12] == Encode([|file|, 0x20_0000, DetectCount])
  {
    FormatAndCopy(hd, file, junk1, used, x, e, chain);
    LayoutStays(old(hd.bytes), hd.bytes, used, x, e, chain);
    Boot(hd, mem, file, junk2, behind, DetectCount, used, x, e, chain);
  }
}
