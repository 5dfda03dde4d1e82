/** Any sequence of copies by the host tool onto one formatted partition (finux_tool/finux.py). */
module CopyRuns {
  import opened Common
  import opened Bytes
  import opened HardDisk
  import opened FinuxFs
  import opened FinuxTool
  import SectorMap
  import BootRoundTrip

  /** A file as the tool has stored it: its inode, the map byte it starts at, its size. */
  datatype File = File(inode: nat, place: nat, size: nat)

  function ExtentsOf(files: seq<File>): (r: seq<SectorMap.Extent>)
    ensures |r| == |files|
    ensures forall i | 0 <= i < |r| :: r[i] == SectorMap.Extent(files[i].place, SectorsFor(files[i].size))
  {
    seq(|files|, i requires 0 <= i < |files| => SectorMap.Extent(files[i].place, SectorsFor(files[i].size)))
  }

  // ----- The tables, write by write -----

  /** What the tool reads of a partition, but for directory and data. */
  datatype Tables = Tables(super: seq<byte>, inodeMap: seq<byte>, sectorMap: seq<byte>, inodes: seq<byte>)

  function TablesOf(d: seq<byte>, base: nat, cnt: word): (t: Tables)
    requires Fits(d, base, cnt)
    ensures |t.super| == SECTOR_SIZE && |t.inodeMap| == 100 && |t.sectorMap| == SECTOR_SIZE * SectorMapSectors(cnt)
    ensures |t.inodes| == 1600
  {
    var sb := Geometry(base, cnt);
    var om, os, oi := SECTOR_SIZE * sb.inode_map_start, SECTOR_SIZE * sb.sector_map_start,
        SECTOR_SIZE * sb.inode_array_start;
    Tables(Sector(d, base + 1), d[om..om + 100], d[os..oi], d[oi..oi + 1600])
  }

  /** Writes behind the inode array, to the directory or the data area, ... */
  lemma WriteBehind(d: seq<byte>, base: nat, cnt: word, off: nat, x: seq<byte>)
    requires Fits(d, base, cnt) && SECTOR_SIZE * Geometry(base, cnt).root_start <= off && off + |x| <= |d|
    ensures TablesOf(Put(d, off, x), base, cnt) == TablesOf(d, base, cnt)
  {
    BootRoundTrip.GeometryOrder(base, cnt);
    hide Put, Geometry, FirstData;
    var sb := Geometry(base, cnt);
    var om, os, oi := SECTOR_SIZE * sb.inode_map_start, SECTOR_SIZE * sb.sector_map_start,
        SECTOR_SIZE * sb.inode_array_start;
    PutElsewhere(d, off, x, SECTOR_SIZE * (base + 1), SECTOR_SIZE * (base + 1) + SECTOR_SIZE);
    PutElsewhere(d, off, x, om, om + 100);
    PutElsewhere(d, off, x, os, oi);
    PutElsewhere(d, off, x, oi, oi + 1600);
  }

  lemma WriteInodes(d: seq<byte>, base: nat, cnt: word, x: seq<byte>)
    requires Fits(d, base, cnt) && |x| == 1600
    ensures TablesOf(Put(d, SECTOR_SIZE * Geometry(base, cnt).inode_array_start, x), base, cnt)
       == TablesOf(d, base, cnt).(inodes := x)
  {
    BootRoundTrip.GeometryOrder(base, cnt);
    hide Put, Geometry, FirstData;
    var sb := Geometry(base, cnt);
    var om, os, oi := SECTOR_SIZE * sb.inode_map_start, SECTOR_SIZE * sb.sector_map_start,
        SECTOR_SIZE * sb.inode_array_start;
    PutElsewhere(d, oi, x, SECTOR_SIZE * (base + 1), SECTOR_SIZE * (base + 1) + SECTOR_SIZE);
    PutElsewhere(d, oi, x, om, om + 100);
    PutElsewhere(d, oi, x, os, oi);
  }

  lemma WriteInodeMap(d: seq<byte>, base: nat, cnt: word, x: seq<byte>)
    requires Fits(d, base, cnt) && |x| == 100
    ensures TablesOf(Put(d, SECTOR_SIZE * Geometry(base, cnt).inode_map_start, x), base, cnt)
       == TablesOf(d, base, cnt).(inodeMap := x)
  {
    BootRoundTrip.GeometryOrder(base, cnt);
    hide Put, Geometry, FirstData;
    var sb := Geometry(base, cnt);
    var om, os, oi := SECTOR_SIZE * sb.inode_map_start, SECTOR_SIZE * sb.sector_map_start,
        SECTOR_SIZE * sb.inode_array_start;
    PutElsewhere(d, om, x, SECTOR_SIZE * (base + 1), SECTOR_SIZE * (base + 1) + SECTOR_SIZE);
    PutElsewhere(d, om, x, os, oi);
    PutElsewhere(d, om, x, oi, oi + 1600);
  }

  lemma WriteSectorMap(d: seq<byte>, base: nat, cnt: word, x: seq<byte>)
    requires Fits(d, base, cnt) && |x| == SECTOR_SIZE * SectorMapSectors(cnt)
    ensures TablesOf(Put(d, SECTOR_SIZE * Geometry(base, cnt).sector_map_start, x), base, cnt)
       == TablesOf(d, base, cnt).(sectorMap := x)
  {
    BootRoundTrip.GeometryOrder(base, cnt);
    hide Put, Geometry, FirstData;
    var sb := Geometry(base, cnt);
    var om, os, oi := SECTOR_SIZE * sb.inode_map_start, SECTOR_SIZE * sb.sector_map_start,
        SECTOR_SIZE * sb.inode_array_start;
    PutElsewhere(d, os, x, SECTOR_SIZE * (base + 1), SECTOR_SIZE * (base + 1) + SECTOR_SIZE);
    PutElsewhere(d, os, x, om, om + 100);
    PutElsewhere(d, os, x, oi, oi + 1600);
  }

  // ----- The invariant -----

  /** The partition is where the formatter put its tables, and the tool's map lies in them. */
  ghost predicate Partition(d: seq<byte>, base: nat, cnt: word) {
    && Fits(d, base, cnt) && cnt % 4096 == 0
    && SuperAt(d, base) == Geometry(base, cnt) && MapBytes(Geometry(base, cnt)) == SECTOR_SIZE * SectorMapSectors(cnt)
    && InodeAt(d, SECTOR_SIZE * Geometry(base, cnt).inode_array_start) == RootInode(base, cnt)
    && TablesOf(d, base, cnt).inodeMap[0] != 0
    && FirstData(base, cnt) + 8 * MapBytes(Geometry(base, cnt)) < U32
  }

  /** File f has its inode, which is marked. */
  ghost predicate Stored(d: seq<byte>, base: nat, cnt: word, f: File)
    requires Fits(d, base, cnt)
  {
    var sb := Geometry(base, cnt);
    && 1 <= f.inode < 100 && 0 < f.size < U32 && sb.first_data_sector + 8 * f.place < U32
    && TablesOf(d, base, cnt).inodeMap[f.inode] != 0
    && InodeAt(d, SECTOR_SIZE * sb.inode_array_start + 16 * f.inode) == NewInode(sb, f.place, f.size)
  }

  /** The partition with its files: all inodes differ, and the map accounts for all sectors. */
  ghost predicate Volume(d: seq<byte>, base: nat, cnt: word, files: seq<File>) {
    && Partition(d, base, cnt)
    && (forall i | 0 <= i < |files| :: Stored(d, base, cnt, files[i]))
    && (forall i, j | 0 <= i < j < |files| :: files[i].inode != files[j].inode)
    && SectorMap.Sound(TablesOf(d, base, cnt).sectorMap, ExtentsOf(files))
  }

  lemma FreshIsVolume(d: seq<byte>, base: nat, cnt: word)
    requires BootRoundTrip.FreshFs(d, base, cnt) && cnt % 4096 == 0 && SECTOR_SIZE * (base + cnt) <= |d|
    ensures Volume(d, base, cnt, [])
    ensures TablesOf(d, base, cnt).sectorMap == Zeros(SECTOR_SIZE * SectorMapSectors(cnt))
  {
    hide InodeAt, SuperAt;
  }

  /** The tables after a copy, in terms of those before. */
  lemma TablesAfterCopy(d: seq<byte>, d': seq<byte>, base: nat, cnt: word, c: Copy, name: seq<byte>, file: seq<byte>)
    requires Partition(d, base, cnt) && Copies(d, d', base, c, name, file)
    ensures |d'| == |d|
    ensures var t, sb := TablesOf(d, base, cnt), Geometry(base, cnt);
      var inodes := InodesAt(d, SECTOR_SIZE * sb.inode_array_start, 100);
      TablesOf(d', base, cnt) == Tables(
        t.super,
        t.inodeMap[c.inode_num := 1],
        SectorMap.Marked(t.sectorMap, c.sector_num, SectorsFor(|file|)),
        InodesBytes(inodes[c.inode_num := NewInode(sb, c.sector_num, |file|)]))
  {
    hide Put, TablesOf, InodesBytes, InodesAt, InodeAt, SuperAt, EntryBytes, SectorMap.Marked, SectorMap.Allocates,
        Takes;
    BootRoundTrip.GeometryOrder(base, cnt);
    var sb, n, place := Geometry(base, cnt), c.inode_num, c.sector_num;
    var inodes := InodesAt(d, SECTOR_SIZE * sb.inode_array_start, 100)[n := NewInode(sb, place, |file|)];
    var d1 := Put(d, SECTOR_SIZE * (sb.first_data_sector + place), file);
    var d2 := Put(d1, SECTOR_SIZE * sb.inode_array_start, InodesBytes(inodes));
    var d3 := Put(d2, SECTOR_SIZE * sb.inode_map_start, InodeMap(d, sb)[n := 1]);
    var map_ := SectorMap.Marked(SectorMapOf(d, sb), place, SectorsFor(|file|));
    WriteBehind(d, base, cnt, SECTOR_SIZE * (sb.first_data_sector + place), file);
    WriteInodes(d1, base, cnt, InodesBytes(inodes));
    WriteInodeMap(d2, base, cnt, InodeMap(d, sb)[n := 1]);
    WriteSectorMap(d3, base, cnt, map_);
    MapsOfTables(d, base, cnt);
    var t := WithTables(d, sb, n, place, file);
    EntryBehind(t, d', base, cnt, c.slot, n, name);
  }

  lemma MapsOfTables(d: seq<byte>, base: nat, cnt: word)
    requires Partition(d, base, cnt)
    ensures InodeMap(d, Geometry(base, cnt)) == TablesOf(d, base, cnt).inodeMap
    ensures SectorMapOf(d, Geometry(base, cnt)) == TablesOf(d, base, cnt).sectorMap
  {
  }

  lemma EntryBehind(t: seq<byte>, d': seq<byte>, base: nat, cnt: word, slot: nat, n: word, name: seq<byte>)
    requires Fits(t, base, cnt) && EntryWritten(t, d', RootInode(base, cnt), slot, n, name)
    ensures |d'| == |t| && TablesOf(d', base, cnt) == TablesOf(t, base, cnt)
  {
    hide Put, TablesOf, EntryBytes, Takes;
    var o := SECTOR_SIZE * Geometry(base, cnt).root_start;
    if d' != t {
      WriteBehind(t, base, cnt, o + 16 * slot, EntryBytes(n, name));
    }
  }

  /** What a successful copy comes to, in terms of the tables. */
  ghost predicate Effect(d: seq<byte>, d': seq<byte>, base: nat, cnt: word, c: Copy, file: seq<byte>) {
    && Fits(d, base, cnt) && |d'| == |d| && c.Copied? && 1 <= c.inode_num < 100 && 0 < |file| < U32
    && Geometry(base, cnt).first_data_sector + 8 * c.sector_num < U32
    && var t, t', sb := TablesOf(d, base, cnt), TablesOf(d', base, cnt), Geometry(base, cnt);
    && t.inodeMap[c.inode_num] == 0
    && SectorMap.Allocates(t.sectorMap, SectorMap.Extent(c.sector_num, SectorsFor(|file|)), t'.sectorMap)
    && t'.super == t.super && t'.inodeMap == t.inodeMap[c.inode_num := 1]
    && var inodes := InodesAt(d, SECTOR_SIZE * sb.inode_array_start, 100);
    t'.inodes == InodesBytes(inodes[c.inode_num := NewInode(sb, c.sector_num, |file|)])
  }

  lemma CopyHasEffect(d: seq<byte>, d': seq<byte>, base: nat, cnt: word, c: Copy, name: seq<byte>, file: seq<byte>)
    requires Partition(d, base, cnt) && Copies(d, d', base, c, name, file)
    ensures Effect(d, d', base, cnt, c, file)
  {
    hide TablesOf, InodesBytes, InodesAt, InodeAt, SuperAt, SectorMap.Marked, SectorMap.Allocates, EntryWritten,
        WithTables;
    TablesAfterCopy(d, d', base, cnt, c, name, file);
    MapsOfTables(d, base, cnt);
  }

  // ----- Runs -----

  function FileOf(c: Copy, file: seq<byte>): File
    requires c.Copied?
  {
    File(c.inode_num, c.sector_num, |file|)
  }

  lemma InodeInTable(d: seq<byte>, base: nat, cnt: word, k: nat, x: Inode)
    requires Fits(d, base, cnt) && k < 100 && TablesOf(d, base, cnt).inodes[16 * k..16 * k + 16] == InodeBytes(x)
    ensures InodeAt(d, SECTOR_SIZE * Geometry(base, cnt).inode_array_start + 16 * k) == x
  {
    hide InodeBytes, InodeAt;
    var oi := SECTOR_SIZE * Geometry(base, cnt).inode_array_start;
    SliceOfSlice(d, oi, oi + 1600, 16 * k, 16 * k + 16);
    InodeRoundTrip(d, oi + 16 * k, x);
  }

  /** Inode k after the copy. */
  lemma InodeAfter(d: seq<byte>, d': seq<byte>, base: nat, cnt: word, c: Copy, file: seq<byte>, k: nat)
    requires Effect(d, d', base, cnt, c, file) && k < 100
    ensures var sb := Geometry(base, cnt);
      InodeAt(d', SECTOR_SIZE * sb.inode_array_start + 16 * k)
      == if k == c.inode_num then NewInode(sb, c.sector_num, |file|)
          else InodeAt(d, SECTOR_SIZE * sb.inode_array_start + 16 * k)
  {
    hide InodesBytes, InodeAt, InodeBytes, TablesOf, SectorMap.Allocates, NewInode;
    var sb := Geometry(base, cnt);
    var l := InodesAt(d, SECTOR_SIZE * sb.inode_array_start, 100)[c.inode_num := NewInode(sb, c.sector_num, |file|)];
    InodesBytesAt(l, k);
    InodeInTable(d', base, cnt, k, l[k]);
  }

  lemma PartitionStays(d: seq<byte>, d': seq<byte>, base: nat, cnt: word, c: Copy, file: seq<byte>)
    requires Partition(d, base, cnt) && Effect(d, d', base, cnt, c, file)
    ensures Partition(d', base, cnt)
  {
    hide InodesBytes, InodesAt, InodeAt, SuperAt, TablesOf, SectorMap.Allocates, NewInode;
    InodeAfter(d, d', base, cnt, c, file, 0);
    SuperOfTables(d, d', base, cnt);
  }

  lemma SuperOfTables(d: seq<byte>, d': seq<byte>, base: nat, cnt: word)
    requires Fits(d, base, cnt) && Fits(d', base, cnt) && TablesOf(d, base, cnt).super == TablesOf(d', base, cnt).super
    ensures SuperAt(d', base) == SuperAt(d, base)
  {
  }

  lemma StoredStays(d: seq<byte>, d': seq<byte>, base: nat, cnt: word, c: Copy, file: seq<byte>, f: File)
    requires Effect(d, d', base, cnt, c, file) && Stored(d, base, cnt, f)
    ensures f.inode != c.inode_num && Stored(d', base, cnt, f)
  {
    hide InodesBytes, InodesAt, InodeAt, TablesOf, SectorMap.Allocates, NewInode;
    InodeAfter(d, d', base, cnt, c, file, f.inode);
  }

  lemma NewIsStored(d: seq<byte>, d': seq<byte>, base: nat, cnt: word, c: Copy, file: seq<byte>)
    requires Effect(d, d', base, cnt, c, file)
    ensures Stored(d', base, cnt, FileOf(c, file))
  {
    hide InodesBytes, InodesAt, InodeAt, TablesOf, SectorMap.Allocates, NewInode;
    InodeAfter(d, d', base, cnt, c, file, c.inode_num);
  }

  lemma MapStaysSound(d: seq<byte>, d': seq<byte>, base: nat, cnt: word, files: seq<File>, c: Copy, file: seq<byte>)
    requires Effect(d, d', base, cnt, c, file) && SectorMap.Sound(TablesOf(d, base, cnt).sectorMap, ExtentsOf(files))
    ensures SectorMap.Sound(TablesOf(d', base, cnt).sectorMap, ExtentsOf(files + [FileOf(c, file)]))
  {
    hide InodesBytes, InodesAt, TablesOf, SectorMap.Allocates, SectorMap.Sound, NewInode;
    var e := SectorMap.Extent(c.sector_num, SectorsFor(|file|));
    SectorMap.AllocationKeepsSound(TablesOf(d, base, cnt).sectorMap, ExtentsOf(files), e,
        TablesOf(d', base, cnt).sectorMap);
    assert ExtentsOf(files + [FileOf(c, file)]) == ExtentsOf(files) + [e];
  }

  /** A copy keeps all earlier files' inodes and adds its own. */
  lemma CopyKeepsVolume(d: seq<byte>, d': seq<byte>, base: nat, cnt: word, files: seq<File>, c: Copy, name: seq<byte>,
                        file: seq<byte>)
    requires Volume(d, base, cnt, files) && Copies(d, d', base, c, name, file)
    ensures c.Copied? && Volume(d', base, cnt, files + [FileOf(c, file)])
  {
    hide Copies, Effect, Partition, Stored, TablesOf, SectorMap.Sound;
    CopyHasEffect(d, d', base, cnt, c, name, file);
    EffectCopied(d, d', base, cnt, c, file);
    PartitionStays(d, d', base, cnt, c, file);
    MapStaysSound(d, d', base, cnt, files, c, file);
    NewIsStored(d, d', base, cnt, c, file);
    forall i | 0 <= i < |files| ensures Stored(d', base, cnt, files[i]) && files[i].inode != c.inode_num {
      StoredStays(d, d', base, cnt, c, file, files[i]);
    }
  }

  lemma EffectCopied(d: seq<byte>, d': seq<byte>, base: nat, cnt: word, c: Copy, file: seq<byte>)
    requires Effect(d, d', base, cnt, c, file)
    ensures c.Copied? && Fits(d, base, cnt) && Fits(d', base, cnt) && 0 < |file| < U32
  {
  }

  /** The tool can always be called again. */
  lemma VolumeIsMountable(d: seq<byte>, base: nat, cnt: word, files: seq<File>)
    requires Volume(d, base, cnt, files)
    ensures Mountable(d, base)
  {
    hide InodeAt, SuperAt, SectorMap.Sound, Stored;
    assert d[SECTOR_SIZE * Geometry(base, cnt).inode_map_start] == TablesOf(d, base, cnt).inodeMap[0];
  }

  /** Copy i leads from disk i to disk i+1. */
  ghost predicate CopyRun(disks: seq<seq<byte>>, base: nat, copies: seq<Copy>, names: seq<seq<byte>>,
                          datas: seq<seq<byte>>) {
    && |disks| == |copies| + 1 && |names| == |datas| == |copies|
    && forall i | 0 <= i < |copies| :: Copies(disks[i], disks[i + 1], base, copies[i], names[i], datas[i])
  }

  function FilesOf(copies: seq<Copy>, datas: seq<seq<byte>>): (r: seq<File>)
    requires |datas| == |copies| && forall i | 0 <= i < |copies| :: copies[i].Copied?
    ensures |r| == |copies| && forall i | 0 <= i < |r| :: r[i] == FileOf(copies[i], datas[i])
  {
    seq(|copies|, i requires 0 <= i < |copies| => FileOf(copies[i], datas[i]))
  }

  lemma AllCopied(disks: seq<seq<byte>>, base: nat, copies: seq<Copy>, names: seq<seq<byte>>, datas: seq<seq<byte>>)
    requires CopyRun(disks, base, copies, names, datas)
    ensures forall i | 0 <= i < |copies| :: copies[i].Copied?
  {
    forall i | 0 <= i < |copies| ensures copies[i].Copied? {
      assert Copies(disks[i], disks[i + 1], base, copies[i], names[i], datas[i]);
    }
  }

  lemma {:induction false} RunKeepsVolume(disks: seq<seq<byte>>, base: nat, cnt: word, copies: seq<Copy>,
                                          names: seq<seq<byte>>, datas: seq<seq<byte>>)
    requires CopyRun(disks, base, copies, names, datas) && Volume(disks[0], base, cnt, [])
    ensures forall i | 0 <= i < |copies| :: copies[i].Copied?
    ensures Volume(disks[|copies|], base, cnt, FilesOf(copies, datas))
    decreases |copies|
  {
    hide Volume, Copies;
    AllCopied(disks, base, copies, names, datas);
    if copies == [] {
      assert FilesOf(copies, datas) == [];
    } else {
      var n := |copies| - 1;
      assert CopyRun(disks[..n + 1], base, copies[..n], names[..n], datas[..n]);
      RunKeepsVolume(disks[..n + 1], base, cnt, copies[..n], names[..n], datas[..n]);
      assert Copies(disks[n], disks[n + 1], base, copies[n], names[n], datas[n]);
      CopyKeepsVolume(disks[n], disks[n + 1], base, cnt, FilesOf(copies[..n], datas[..n]), copies[n], names[n],
          datas[n]);
      assert FilesOf(copies[..n], datas[..n]) + [FileOf(copies[n], datas[n])] == FilesOf(copies, datas);
    }
  }

  predicate ApartOnDisk(a: Inode, b: Inode) {
    || a.file_start_sect + a.file_sector_cnt <= b.file_start_sect
    || b.file_start_sect + b.file_sector_cnt <= a.file_start_sect
  }

  /** After any sequence of successful copies onto a formatted partition, the inodes on the disk that
      the copies took are different ones and record pairwise disjoint sectors. */
  lemma InodesStayApart(disks: seq<seq<byte>>, base: nat, cnt: word, copies: seq<Copy>, names: seq<seq<byte>>,
                        datas: seq<seq<byte>>, i: nat, j: nat)
    requires CopyRun(disks, base, copies, names, datas) && i < j < |copies|
    requires BootRoundTrip.FreshFs(disks[0], base, cnt) && cnt % 4096 == 0 && SECTOR_SIZE * (base + cnt) <= |disks[0]|
    ensures copies[i].Copied? && copies[j].Copied? && copies[i].inode_num != copies[j].inode_num
    ensures Fits(disks[|copies|], base, cnt) && copies[i].inode_num < 100 && copies[j].inode_num < 100
    ensures var d, oi := disks[|copies|], SECTOR_SIZE * Geometry(base, cnt).inode_array_start;
      ApartOnDisk(InodeAt(d, oi + 16 * copies[i].inode_num), InodeAt(d, oi + 16 * copies[j].inode_num))
  {
    hide InodeAt, NewInode, BootRoundTrip.FreshFs, TablesOf, SectorMap.Sound, Volume, Copies, ApartOnDisk, Geometry;
    FreshIsVolume(disks[0], base, cnt);
    RunKeepsVolume(disks, base, cnt, copies, names, datas);
    var files, d := FilesOf(copies, datas), disks[|copies|];
    VolumeFits(d, base, cnt, files);
    StoredInode(d, base, cnt, files, i);
    StoredInode(d, base, cnt, files, j);
    FilesDoNotOverlap(TablesOf(d, base, cnt).sectorMap, Geometry(base, cnt), files, i, j);
  }

  lemma StoredInode(d: seq<byte>, base: nat, cnt: word, files: seq<File>, i: nat)
    requires Volume(d, base, cnt, files) && i < |files|
    ensures Fits(d, base, cnt) && 1 <= files[i].inode < 100 && files[i].size < U32
    ensures var sb, f := Geometry(base, cnt), files[i];
      && sb.first_data_sector + 8 * f.place < U32
      && InodeAt(d, SECTOR_SIZE * sb.inode_array_start + 16 * f.inode) == NewInode(sb, f.place, f.size)
  {
    hide InodeAt, NewInode, TablesOf, SectorMap.Sound, Partition;
    VolumeFits(d, base, cnt, files);
    assert Stored(d, base, cnt, files[i]);
  }

  lemma VolumeFits(d: seq<byte>, base: nat, cnt: word, files: seq<File>)
    requires Volume(d, base, cnt, files)
    ensures Fits(d, base, cnt) && SectorMap.Sound(TablesOf(d, base, cnt).sectorMap, ExtentsOf(files))
    ensures forall i, j | 0 <= i < j < |files| :: files[i].inode != files[j].inode
  {
    hide InodeAt, SuperAt, TablesOf, SectorMap.Sound;
  }

  /** The sectors the inodes of any files in a sound map record do not overlap. */
  lemma FilesDoNotOverlap(map_: seq<byte>, sb: SuperBlock, files: seq<File>, i: nat, j: nat)
    requires SectorMap.Sound(map_, ExtentsOf(files)) && i < j < |files| && files[i].size < U32 && files[j].size < U32
    requires sb.first_data_sector + 8 * files[i].place < U32 && sb.first_data_sector + 8 * files[j].place < U32
    ensures ApartOnDisk(NewInode(sb, files[i].place, files[i].size), NewInode(sb, files[j].place, files[j].size))
  {
    assert SectorMap.Disjoint(ExtentsOf(files)[i], ExtentsOf(files)[j]);
  }

  // ----- The second file -----

  lemma TablesElsewhere(d: seq<byte>, sb: SuperBlock, n: nat, place: nat, file: seq<byte>, lo: nat, hi: nat)
    requires TablesApart(sb) && n < 100 && 0 < |file| < U32 && sb.first_data_sector + 8 * place < U32
    requires SECTOR_SIZE * (sb.first_data_sector + place) + |file| <= |d|
    requires SECTOR_SIZE * sb.first_data_sector <= lo <= hi <= |d|
    ensures WithTables(d, sb, n, place, file)[lo..hi]
       == Put(d, SECTOR_SIZE * (sb.first_data_sector + place), file)[lo..hi]
  {
    hide Put, InodesBytes, InodesAt, SectorMap.Marked, NewInode;
    var inodes := InodesAt(d, SECTOR_SIZE * sb.inode_array_start, 100)[n := NewInode(sb, place, |file|)];
    WritesBefore(d, SECTOR_SIZE * (sb.first_data_sector + place), file,
                 SECTOR_SIZE * sb.inode_array_start, InodesBytes(inodes),
                 SECTOR_SIZE * sb.inode_map_start, InodeMap(d, sb)[n := 1],
                 SECTOR_SIZE * sb.sector_map_start, SectorMap.Marked(SectorMapOf(d, sb), place, SectorsFor(|file|)),
                 lo, hi);
  }

  lemma WritesBefore(d: seq<byte>, o: nat, x: seq<byte>, o1: nat, x1: seq<byte>, o2: nat, x2: seq<byte>, o3: nat,
                     x3: seq<byte>, lo: nat, hi: nat)
    requires o + |x| <= |d| && o1 + |x1| <= lo && o2 + |x2| <= lo && o3 + |x3| <= lo <= hi <= |d|
    ensures Put(Put(Put(Put(d, o, x), o1, x1), o2, x2), o3, x3)[lo..hi] == Put(d, o, x)[lo..hi]
  {
    hide Put;
    var d1 := Put(d, o, x);
    PutElsewhere(d1, o1, x1, lo, hi);
    PutElsewhere(Put(d1, o1, x1), o2, x2, lo, hi);
    PutElsewhere(Put(Put(d1, o1, x1), o2, x2), o3, x3, lo, hi);
  }

  /** Behind the tables a copy writes the file, at one sector per map byte, and nothing else. */
  lemma DataAfterCopy(d: seq<byte>, d': seq<byte>, base: nat, cnt: word, c: Copy, name: seq<byte>, file: seq<byte>,
                      lo: nat, hi: nat)
    requires Partition(d, base, cnt) && Copies(d, d', base, c, name, file)
    requires SECTOR_SIZE * FirstData(base, cnt) <= lo <= hi <= |d|
    ensures |d'| == |d| && c.Copied? && SECTOR_SIZE * (FirstData(base, cnt) + c.sector_num) + |file| <= |d|
    ensures d'[lo..hi] == Put(d, SECTOR_SIZE * (FirstData(base, cnt) + c.sector_num), file)[lo..hi]
  {
    hide Put, EntryWritten, WithTables, Geometry, Copies, Partition, FirstData;
    CopyFacts(d, d', base, cnt, c, name, file);
    BootRoundTrip.GeometryApart(base, cnt);
    TablesElsewhere(d, Geometry(base, cnt), c.inode_num, c.sector_num, file, lo, hi);
    EntryElsewhere(WithTables(d, Geometry(base, cnt), c.inode_num, c.sector_num, file), d', base, cnt, c.slot,
        c.inode_num, name, lo, hi);
  }

  lemma CopyFacts(d: seq<byte>, d': seq<byte>, base: nat, cnt: word, c: Copy, name: seq<byte>, file: seq<byte>)
    requires Partition(d, base, cnt) && Copies(d, d', base, c, name, file)
    ensures Fits(d, base, cnt) && cnt % 4096 == 0 && c.Copied? && c.inode_num < 100 && 0 < |file| < U32
    ensures FirstData(base, cnt) + 8 * c.sector_num < U32
    ensures SECTOR_SIZE * (FirstData(base, cnt) + c.sector_num) + |file| <= |d|
    ensures SECTOR_SIZE * Geometry(base, cnt).inode_array_start + 1600 <= |d|
    ensures SECTOR_SIZE * Geometry(base, cnt).inode_map_start + 100 <= |d|
    ensures SECTOR_SIZE * Geometry(base, cnt).sector_map_start + MapBytes(Geometry(base, cnt)) <= |d|
    ensures Geometry(base, cnt).first_data_sector == FirstData(base, cnt)
    ensures EntryWritten(WithTables(d, Geometry(base, cnt), c.inode_num, c.sector_num, file), d',
          RootInode(base, cnt), c.slot, c.inode_num, name)
  {
    hide EntryWritten, WithTables, SectorMap.Allocates, TablesOf, InodeAt, SuperAt;
  }

  lemma EntryElsewhere(t: seq<byte>, d': seq<byte>, base: nat, cnt: word, slot: nat, n: word, name: seq<byte>,
                       lo: nat, hi: nat)
    requires Fits(t, base, cnt) && EntryWritten(t, d', RootInode(base, cnt), slot, n, name)
    requires SECTOR_SIZE * FirstData(base, cnt) <= lo <= hi <= |t|
    ensures |d'| == |t| && d'[lo..hi] == t[lo..hi]
  {
    hide Put, EntryBytes, Takes;
    if d' != t {
      PutElsewhere(t, SECTOR_SIZE * Geometry(base, cnt).root_start + 16 * slot, EntryBytes(n, name), lo, hi);
    }
  }

  /** Where the first file ends in the map: the bytes it needs and, above eight sectors, one more. */
  function SecondPlace(size: nat): nat {
    SectorMap.Units(SectorsFor(size)) + if SectorsFor(size) > 8 then 1 else 0
  }

  /** First fit in an empty map, and in one that holds a first file. */
  lemma FirstPlaces(map_: seq<byte>, e: SectorMap.Extent, map': seq<byte>)
    requires SectorMap.Allocates(map_, e, map') && forall k | 0 <= k < |map_| :: map_[k] == 0
    ensures e.start == 0
  {
    assert e.start > 0 ==> SectorMap.Blocked(map_, 0, SectorMap.Units(e.cnt));
  }

  lemma SecondPlaces(n: nat, size: nat, e: SectorMap.Extent, map': seq<byte>)
    requires 0 < size && SectorMap.Units(SectorsFor(size)) + (if SectorsFor(size) > 8 then 1 else 0) <= n
    requires SectorMap.Allocates(SectorMap.Marked(Zeros(n), 0, SectorsFor(size)), e, map')
    ensures e.start == SecondPlace(size)
  {
    var m, p := SectorMap.Marked(Zeros(n), 0, SectorsFor(size)), SecondPlace(size);
    assert forall k | 0 <= k < n :: m[k] != 0 <==> k < p;
    assert m[e.start] == 0;
    assert e.start > p ==> SectorMap.Blocked(m, p, SectorMap.Units(e.cnt));
  }

  /** The first file's sectors reach the second's place unless there is only one. */
  lemma OnlyOneSectorIsSafe(size: nat)
    requires size > 0
    ensures size <= SECTOR_SIZE * SecondPlace(size) <==> size <= SECTOR_SIZE
  {
  }

  /** The two files agree where the second lies over the first. */
  predicate Agree(file1: seq<byte>, file2: seq<byte>, at: nat) {
    forall i | at <= i < |file1| && i - at < |file2| :: file1[i] == file2[i - at]
  }

  lemma OverlaidKeeps(d: seq<byte>, off: nat, file1: seq<byte>, file2: seq<byte>, at: nat)
    requires off + |file1| <= |d| && d[off..off + |file1|] == file1 && off + at + |file2| <= |d|
    ensures Put(d, off + at, file2)[off..off + |file1|] == file1 <==> Agree(file1, file2, at)
  {
    var r := Put(d, off + at, file2);
    forall i | 0 <= i < |file1|
      ensures r[off..off + |file1|][i] == if at <= i && i - at < |file2| then file2[i - at] else file1[i]
    {
      PutAt(d, off + at, file2, off + i);
      assert d[off..off + |file1|][i] == file1[i];
    }
  }

  /** Where first fit puts the first and the second file. */
  lemma Places(d0: seq<byte>, d1: seq<byte>, d2: seq<byte>, base: nat, cnt: word, c1: Copy, c2: Copy,
               file1: seq<byte>, file2: seq<byte>)
    requires Effect(d0, d1, base, cnt, c1, file1) && Effect(d1, d2, base, cnt, c2, file2)
    requires TablesOf(d0, base, cnt).sectorMap == Zeros(SECTOR_SIZE * SectorMapSectors(cnt))
    ensures c1.sector_num == 0 && c2.sector_num == SecondPlace(|file1|)
  {
    hide InodesBytes, InodesAt, TablesOf, NewInode;
    var m0, m1 := TablesOf(d0, base, cnt).sectorMap, TablesOf(d1, base, cnt).sectorMap;
    FirstPlaces(m0, SectorMap.Extent(c1.sector_num, SectorsFor(|file1|)), m1);
    SecondPlaces(|m0|, |file1|, SectorMap.Extent(c2.sector_num, SectorsFor(|file2|)),
        TablesOf(d2, base, cnt).sectorMap);
  }

  lemma PartitionEnd(d: seq<byte>, base: nat, cnt: word, c: Copy, name: seq<byte>, d': seq<byte>, file: seq<byte>)
    requires Partition(d, base, cnt) && Copies(d, d', base, c, name, file)
    ensures SECTOR_SIZE * FirstData(base, cnt) <= |d|
    ensures c.Copied? && c.sector_num == 0 ==> SECTOR_SIZE * FirstData(base, cnt) + |file| <= |d|
  {
    hide TablesOf, InodeAt, SuperAt, EntryWritten, WithTables, SectorMap.Allocates;
  }

  /** What a second copy does to the first file's bytes: on a formatted partition they survive a given
      second file exactly if the first file is one sector or less or the files agree where the second is
      written over the first, from sector SecondPlace on. */
  lemma SecondCopy(d0: seq<byte>, d1: seq<byte>, d2: seq<byte>, base: nat, cnt: word,
                   c1: Copy, c2: Copy, name1: seq<byte>, name2: seq<byte>, file1: seq<byte>, file2: seq<byte>)
    requires BootRoundTrip.FreshFs(d0, base, cnt) && cnt % 4096 == 0 && SECTOR_SIZE * (base + cnt) <= |d0|
    requires Copies(d0, d1, base, c1, name1, file1) && Copies(d1, d2, base, c2, name2, file2)
    ensures c1.sector_num == 0 && c2.sector_num == SecondPlace(|file1|)
    ensures SECTOR_SIZE * FirstData(base, cnt) + |file1| <= |d1| == |d2|
    ensures var od := SECTOR_SIZE * FirstData(base, cnt);
      && d1[od..od + |file1|] == file1
      && (d2[od..od + |file1|] == file1 <==>
            (|file1| <= SECTOR_SIZE || Agree(file1, file2, SECTOR_SIZE * SecondPlace(|file1|))))
  {
    hide BootRoundTrip.FreshFs, Partition, Copies, Effect, Put, TablesOf, SecondPlace, FirstData;
    FreshIsVolume(d0, base, cnt);
    CopyHasEffect(d0, d1, base, cnt, c1, name1, file1);
    PartitionStays(d0, d1, base, cnt, c1, file1);
    CopyHasEffect(d1, d2, base, cnt, c2, name2, file2);
    EffectCopied(d0, d1, base, cnt, c1, file1);
    Places(d0, d1, d2, base, cnt, c1, c2, file1, file2);
    PartitionEnd(d0, base, cnt, c1, name1, d1, file1);
    var od := SECTOR_SIZE * FirstData(base, cnt);
    DataAfterCopy(d0, d1, base, cnt, c1, name1, file1, od, od + |file1|);
    DataAfterCopy(d1, d2, base, cnt, c2, name2, file2, od, od + |file1|);
    OverlaidKeeps(d1, od, file1, file2, SECTOR_SIZE * c2.sector_num);
    OnlyOneSectorIsSafe(|file1|);
    if |file1| <= SECTOR_SIZE {
      assert Agree(file1, file2, SECTOR_SIZE * c2.sector_num);
    }
  }

  /** When a second copy goes well: by its place, the map that the first has left on the disk must have the
      bytes for it. */
  lemma SecondHasRoom(d0: seq<byte>, d1: seq<byte>, base: nat, cnt: word, c1: Copy, name1: seq<byte>, file1: seq<byte>,
                      size: nat)
    requires BootRoundTrip.FreshFs(d0, base, cnt) && cnt % 4096 == 0 && SECTOR_SIZE * (base + cnt) <= |d0|
    requires Copies(d0, d1, base, c1, name1, file1) && size > 0
    ensures Fits(d1, base, cnt) && SECTOR_SIZE * FirstData(base, cnt) <= |d1|
    ensures SectorMap.HasRoom(TablesOf(d1, base, cnt).sectorMap, SectorsFor(size)) <==>
              SecondPlace(|file1|) + SecondPlace(size) <= SECTOR_SIZE * SectorMapSectors(cnt)
  {
    hide BootRoundTrip.FreshFs, Partition, Copies, TablesOf, SecondPlace;
    FreshIsVolume(d0, base, cnt);
    CopyHasEffect(d0, d1, base, cnt, c1, name1, file1);
    EffectCopied(d0, d1, base, cnt, c1, file1);
    FirstMap(d0, d1, base, cnt, c1, file1);
    RoomBehind(SECTOR_SIZE * SectorMapSectors(cnt), |file1|, size);
  }

  lemma FirstMap(d0: seq<byte>, d1: seq<byte>, base: nat, cnt: word, c1: Copy, file1: seq<byte>)
    requires Effect(d0, d1, base, cnt, c1, file1)
    requires TablesOf(d0, base, cnt).sectorMap == Zeros(SECTOR_SIZE * SectorMapSectors(cnt))
    ensures TablesOf(d1, base, cnt).sectorMap
         == SectorMap.Marked(Zeros(SECTOR_SIZE * SectorMapSectors(cnt)), 0, SectorsFor(|file1|))
    ensures SecondPlace(|file1|) <= SECTOR_SIZE * SectorMapSectors(cnt)
  {
    hide InodesBytes, InodesAt, TablesOf, NewInode;
    var m0 := TablesOf(d0, base, cnt).sectorMap;
    FirstPlaces(m0, SectorMap.Extent(c1.sector_num, SectorsFor(|file1|)), TablesOf(d1, base, cnt).sectorMap);
  }

  lemma RoomBehind(n: nat, size1: nat, size2: nat)
    requires 0 < size1 && 0 < size2 && SecondPlace(size1) <= n
    ensures SectorMap.HasRoom(SectorMap.Marked(Zeros(n), 0, SectorsFor(size1)), SectorsFor(size2)) <==>
              SecondPlace(size1) + SecondPlace(size2) <= n
  {
    var m, p, c := SectorMap.Marked(Zeros(n), 0, SectorsFor(size1)), SecondPlace(size1), SectorsFor(size2);
    assert forall k | 0 <= k < n :: m[k] != 0 <==> k < p;
    if p + SecondPlace(size2) <= n {
      forall s | 0 <= s < p ensures SectorMap.Blocked(m, s, SectorMap.Units(c)) {
        assert m[s] != 0;
      }
      assert SectorMap.FitsAt(m, p, c);
    }
    forall q: nat | SectorMap.FitsAt(m, q, c) ensures q == p && p + SecondPlace(size2) <= n {
      SecondPlaces(n, size1, SectorMap.Extent(q, c), SectorMap.Marked(m, q, c));
    }
  }

  /** For every longer first file there is, of any size, a second file that destroys it. */
  lemma LongFileCanBeLost(file1: seq<byte>, size: nat) returns (file2: seq<byte>)
    requires |file1| > SECTOR_SIZE && size > 0
    ensures |file2| == size && !Agree(file1, file2, SECTOR_SIZE * SecondPlace(|file1|))
  {
    OnlyOneSectorIsSafe(|file1|);
    var at := SECTOR_SIZE * SecondPlace(|file1|);
    var other: byte := if file1[at] == 0 then 1 else 0;
    file2 := [other] + Zeros(size - 1);
    assert file1[at] != file2[at - at];
  }
}
