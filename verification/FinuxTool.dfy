/** The host tool that copies a file into a Finux partition (finux_tool/finux.py). */
module FinuxTool {
  import opened Common
  import opened Bytes
  import opened HardDisk
  import opened PartitionTable
  import opened FinuxFs
  import SectorMap

  // ----- Finding the partition -----

  datatype Base = Base(lba: nat) | NotFound | Failed

  function RecordAt(d: seq<byte>, pos: nat): (r: seq<byte>)
    ensures r == [] || |r| == SECTOR_SIZE
  {
    if pos + SECTOR_SIZE <= |d| then d[pos..pos + SECTOR_SIZE] else []
  }

  /** The next record; past the end of the disk, where the length check of unpacking raises an
      exception, it is empty. */
  method ReadTable(hd: Disk) returns (sector: seq<byte>)
    modifies hd`pos
    ensures sector == RecordAt(hd.bytes, old(hd.pos)) && hd.pos == old(hd.pos) + |sector|
  {
    if hd.pos + SECTOR_SIZE <= |hd.bytes| {
      sector := hd.ReadNext(SECTOR_SIZE);
    } else {
      sector := [];
    }
  }

  /** The record of a disk whose only extended partition is entry x, with no Finux primary; unlike
      the loader the tool looks at all four entries. */
  ghost predicate ToolMbr(sector: seq<byte>, x: nat, e: nat) {
    && |sector| == SECTOR_SIZE && x < 4 && Entry(sector, x).first == e
    && (forall i | 0 <= i < 4 :: Entry(sector, i).kind != FINUX_SYSID)
    && (forall i | 0 <= i < 4 :: Entry(sector, i).kind == PART_EXTENDED <==> i == x)
  }

  /** The first logical partition is a Finux one. */
  ghost predicate FirstIsFinux(d: seq<byte>, x: nat, e: nat) {
    && |d| >= SECTOR_SIZE && ToolMbr(Sector(d, 0), x, e)
    && SECTOR_SIZE * (e + 1) <= |d| && Entry(Sector(d, e), 0).kind == FINUX_SYSID
  }

  /** One record of the extended partition, from its j-th entry on: the base of a Finux partition, or
      the list with the entries before the first empty one. */
  datatype Scan = Go(logical: seq<Part>) | Done(base: Base)

  function ScanRecord(sector: seq<byte>, j: nat, logical: seq<Part>): (r: Scan)
    requires |sector| == SECTOR_SIZE && j <= 2 && logical != []
    ensures r.Go? ==> logical <= r.logical
    decreases 2 - j
  {
    if j == 2 || Entry(sector, j).kind == PART_EMPTY then Go(logical)
    else if Entry(sector, j).kind == FINUX_SYSID then
      Done(Base(logical[0].first + (if |logical| == 1 then 0 else logical[|logical| - 1].first) +
          Entry(sector, j).first))
    else ScanRecord(sector, j + 1, logical + [Entry(sector, j)])
  }

  function NextPos(logical: seq<Part>, pos: nat): nat
    requires logical != []
  {
    var last := logical[|logical| - 1];
    if last.kind == PART_EXTENDED then last.first * SECTOR_SIZE else pos
  }

  /** The rounds over the extended partition's records.  A link leads to the sector its entry names,
      counted from the start of the disk. */
  function WalkRecords(d: seq<byte>, pos: nat, logical: seq<Part>, rounds: nat): Base
    requires logical != []
    decreases rounds
  {
    if rounds == 0 then NotFound else
    var at := NextPos(logical, pos);
    var sector := RecordAt(d, at);
    if sector == [] then Failed else
    match ScanRecord(sector, 0, logical)
    case Done(b) => b
    case Go(l) => WalkRecords(d, at + SECTOR_SIZE, l, rounds - 1)
  }

  predicate HasFinux(mbr: seq<byte>, i: nat)
    requires |mbr| == SECTOR_SIZE && i <= 4
  {
    exists k :: 0 <= k < i && Entry(mbr, k).kind == FINUX_SYSID
  }

  /** The base the tool works with. */
  function ToolBase(d: seq<byte>): Base {
    var mbr := RecordAt(d, 0);
    if mbr == [] || HasFinux(mbr, 4) then Failed
    else if Extended(mbr, 4) == [] then NotFound
    else WalkRecords(d, SECTOR_SIZE, Extended(mbr, 4), 10)
  }

  /** The inner loop over a record's two entries. */
  method ScanTable(sector: seq<byte>, before: seq<Part>) returns (r: Scan)
    requires |sector| == SECTOR_SIZE && before != []
    ensures r == ScanRecord(sector, 0, before)
  {
    hide Entry;
    var logical := before;
    var j := 0;
    while j < 2
      invariant logical != [] && 0 <= j <= 2
      invariant ScanRecord(sector, j, logical) == ScanRecord(sector, 0, before)
    {
      var table := Entry(sector, j);
      if table.kind == PART_EMPTY {
        break;
      } else if table.kind == FINUX_SYSID {
        if |logical| == 1 {
          return Done(Base(logical[0].first + table.first));
        } else {
          return Done(Base(logical[0].first + logical[|logical| - 1].first + table.first));
        }
      }
      logical := logical + [table];
      j := j + 1;
    }
    return Go(logical);
  }

  /** find_part_table and the base computation of the main program.  A Finux primary partition makes
      the program take the length of a record that has none. */
  method FindPartBase(hd: Disk) returns (r: Base)
    requires hd.pos == 0
    modifies hd`pos
    ensures r == ToolBase(hd.bytes)
  {
    hide Entry, WalkRecords;
    var mbr := ReadTable(hd);
    assert mbr == RecordAt(hd.bytes, 0);
    if mbr == [] {
      return Failed;
    }
    var logical: seq<Part> := [];
    for i := 0 to 4
      invariant !HasFinux(mbr, i) && logical == Extended(mbr, i)
    {
      var table := Entry(mbr, i);
      if table.kind == PART_EXTENDED {
        logical := logical + [table];
      } else if table.kind == FINUX_SYSID {
        assert HasFinux(mbr, 4);
        return Failed;
      }
    }
    if logical == [] {
      return NotFound;
    }
    r := FollowLinks(hd, logical);
  }

  lemma WalkStep(d: seq<byte>, pos: nat, logical: seq<Part>, rounds: nat)
    requires logical != [] && rounds > 0
    ensures var at := NextPos(logical, pos); var sector := RecordAt(d, at);
      && (sector == [] ==> WalkRecords(d, pos, logical, rounds) == Failed)
      && (sector != [] ==> match ScanRecord(sector, 0, logical)
            case Done(b) => WalkRecords(d, pos, logical, rounds) == b
            case Go(l) => WalkRecords(d, pos, logical, rounds) == WalkRecords(d, at + SECTOR_SIZE, l, rounds - 1))
  {
  }

  /** The loop over the records of the extended partition. */
  method FollowLinks(hd: Disk, found: seq<Part>) returns (r: Base)
    requires found != []
    modifies hd`pos
    ensures r == WalkRecords(hd.bytes, old(hd.pos), found, 10)
  {
    hide Entry, ScanRecord, RecordAt, WalkRecords;
    var logical := found;
    for i := 0 to 10
      invariant logical != []
      invariant WalkRecords(hd.bytes, hd.pos, logical, 10 - i) == WalkRecords(hd.bytes, old(hd.pos), found, 10)
    {
      WalkStep(hd.bytes, hd.pos, logical, 10 - i);
      ghost var at := NextPos(logical, hd.pos);
      var last := logical[|logical| - 1];
      if last.kind == PART_EXTENDED {
        hd.pos := last.first * SECTOR_SIZE;
      }
      assert hd.pos == at;
      var logic_part := ReadTable(hd);
      if logic_part == [] {
        return Failed;
      }
      var scan := ScanTable(logic_part, logical);
      match scan
      case Done(base) => return base;
      case Go(l) => logical := l;
    }
    WalkEnd(hd.bytes, hd.pos, logical);
    return NotFound;
  }

  lemma WalkEnd(d: seq<byte>, pos: nat, logical: seq<Part>)
    requires logical != []
    ensures WalkRecords(d, pos, logical, 0) == NotFound
  {
  }

  /** A Finux partition among the four entries, or a disk of less than a sector, ends the program. */
  lemma FinuxPrimaryFails(d: seq<byte>, k: nat)
    requires |d| >= 512 && k < 4 && d[446 + 16 * k + 4] == 0xd
    ensures ToolBase(d) == Failed
  {
    EntryFields(d[0..512], k);
    assert d[0..512][446 + 16 * k + 4] == d[446 + 16 * k + 4];
    assert HasFinux(d[0..512], 4);
  }

  /** Without a Finux or an extended entry there is nothing to find. */
  lemma NothingIsNotFound(d: seq<byte>)
    requires |d| >= 512 && forall k | 0 <= k < 4 :: d[446 + 16 * k + 4] != 0xd && d[446 + 16 * k + 4] != 5
    ensures ToolBase(d) == NotFound
  {
    var mbr := d[0..512];
    forall k | 0 <= k < 4 ensures Entry(mbr, k).kind != FINUX_SYSID && Entry(mbr, k).kind != PART_EXTENDED {
      EntryFields(mbr, k);
      assert mbr[446 + 16 * k + 4] == d[446 + 16 * k + 4];
    }
    OneExtended(mbr, 4, 4);
  }

  lemma OnlyExtended(mbr: seq<byte>, x: nat, e: nat)
    requires ToolMbr(mbr, x, e)
    ensures !HasFinux(mbr, 4) && Extended(mbr, 4) == [Entry(mbr, x)]
  {
    var n := Entry(mbr, x);
    assert Extended(mbr, 4) == Extended(mbr, 3) + if x == 3 then [n] else [];
    assert Extended(mbr, 3) == Extended(mbr, 2) + if x == 2 then [n] else [];
    assert Extended(mbr, 2) == Extended(mbr, 1) + if x == 1 then [n] else [];
    assert Extended(mbr, 1) == if x == 0 then [n] else [];
  }

  /** A Finux partition that is the first logical one is found where it is. */
  lemma FirstIsFound(d: seq<byte>, x: nat, e: nat)
    requires FirstIsFinux(d, x, e)
    ensures ToolBase(d) == Base(e + Entry(Sector(d, e), 0).first)
  {
    hide Entry;
    OnlyExtended(Sector(d, 0), x, e);
    assert RecordAt(d, 0) == Sector(d, 0) && RecordAt(d, e * SECTOR_SIZE) == Sector(d, e);
  }

  lemma {:induction false} WalkIsStuck(d: seq<byte>, pos: nat, logical: seq<Part>, rounds: nat)
    requires logical != [] && logical[|logical| - 1].kind == PART_EXTENDED
    requires var s := RecordAt(d, logical[|logical| - 1].first * SECTOR_SIZE); s != [] && Entry(s, 0).kind == PART_EMPTY
    ensures WalkRecords(d, pos, logical, rounds) == NotFound
    decreases rounds
  {
    if rounds > 0 {
      WalkIsStuck(d, logical[|logical| - 1].first * SECTOR_SIZE + SECTOR_SIZE, logical, rounds - 1);
    }
  }

  /** One that is the second is looked for in the wrong sector: links count from the start of the
      extended partition, the tool counts from the start of the disk.  If that sector has an empty
      table it finds nothing; if it has a Finux entry it agrees with the loader only by chance. */
  lemma SecondIsMissed(d: seq<byte>, x: nat, e: nat, chain: seq<Logical>)
    requires |d| >= SECTOR_SIZE && ToolMbr(Sector(d, 0), x, e) && ChainOnDisk(d, e, chain) && |chain| >= 2
    requires chain[0].part.kind != FINUX_SYSID && chain[1].part.kind == FINUX_SYSID
    requires SECTOR_SIZE * (chain[1].table + 1) <= |d|
    ensures var s := Sector(d, chain[1].table);
      && (Entry(s, 0).kind == PART_EMPTY ==> ToolBase(d) == NotFound)
      && (Entry(s, 0).kind == FINUX_SYSID ==>
            (ToolBase(d) == Base(AbsoluteStart(e, chain, 1)) <==> Entry(s, 0).first == chain[1].part.first))
  {
    hide Entry, ScanRecord, WalkRecords;
    OnlyExtended(Sector(d, 0), x, e);
    assert LinkOnDisk(d, e, chain, 0);
    var s0, s1 := Sector(d, e), Sector(d, chain[1].table);
    var ext := Entry(Sector(d, 0), x);
    var l := [ext] + [Entry(s0, 0)] + [Entry(s0, 1)];
    assert RecordAt(d, 0) == Sector(d, 0);
    SectorIsRecord(d, e);
    SectorIsRecord(d, chain[1].table);
    ScanBoth(s0, [ext]);
    WalkStep(d, SECTOR_SIZE, [ext], 10);
    var pos := e * SECTOR_SIZE + SECTOR_SIZE;
    assert ToolBase(d) == WalkRecords(d, pos, l, 9);
    if Entry(s1, 0).kind == PART_EMPTY {
      WalkIsStuck(d, pos, l, 9);
    } else if Entry(s1, 0).kind == FINUX_SYSID {
      ScanFinux(s1, l);
      WalkStep(d, pos, l, 9);
    }
  }

  /** The first Finux entry a walk meets and the last entry it has listed before. */
  datatype Met = Nothing | Met(last: Part, finux: Part)

  function MetInRecord(sector: seq<byte>, j: nat, last: Part): Met
    requires |sector| == SECTOR_SIZE && j <= 2
    decreases 2 - j
  {
    if j == 2 || Entry(sector, j).kind == PART_EMPTY then Nothing
    else if Entry(sector, j).kind == FINUX_SYSID then Met(last, Entry(sector, j))
    else MetInRecord(sector, j + 1, Entry(sector, j))
  }

  /** Up to two entries of a record are listed: those before the first empty one. */
  function LastListed(sector: seq<byte>, last: Part): Part
    requires |sector| == SECTOR_SIZE
  {
    if Entry(sector, 0).kind == PART_EMPTY then last
    else if Entry(sector, 1).kind == PART_EMPTY then Entry(sector, 0) else Entry(sector, 1)
  }

  /** What the records tell, read one after the other or, behind a link, where it points. */
  function Meet(d: seq<byte>, pos: nat, last: Part, rounds: nat): Met
    decreases rounds
  {
    if rounds == 0 then Nothing else
    var at := if last.kind == PART_EXTENDED then last.first * SECTOR_SIZE else pos;
    var s := RecordAt(d, at);
    if s == [] then Nothing
    else if MetInRecord(s, 0, last).Met? then MetInRecord(s, 0, last)
    else Meet(d, at + SECTOR_SIZE, LastListed(s, last), rounds - 1)
  }

  /** Scanning a record is meeting its Finux entry or listing its entries. */
  lemma ScanMeets(s: seq<byte>, l: seq<Part>)
    requires |s| == SECTOR_SIZE && |l| > 1
    ensures match MetInRecord(s, 0, l[|l| - 1])
      case Met(last, finux) => ScanRecord(s, 0, l) == Done(Base(l[0].first + last.first + finux.first))
      case Nothing =>
        && ScanRecord(s, 0, l).Go? && l <= ScanRecord(s, 0, l).logical
        && var r := ScanRecord(s, 0, l).logical; r[|r| - 1] == LastListed(s, l[|l| - 1])
  {
    hide Entry;
    var l1 := l + [Entry(s, 0)];
    var l2 := l1 + [Entry(s, 1)];
    assert ScanRecord(s, 2, l2) == Go(l2);
    assert l <= l1 && l1 <= l2;
  }

  lemma {:induction false} WalkMeets(d: seq<byte>, pos: nat, l: seq<Part>, rounds: nat, base: nat)
    requires |l| > 1
    ensures WalkRecords(d, pos, l, rounds) == Base(base) <==>
              var m := Meet(d, pos, l[|l| - 1], rounds);
              m.Met? && base == l[0].first + m.last.first + m.finux.first
    decreases rounds
  {
    hide Entry, RecordAt, MetInRecord, LastListed;
    if rounds > 0 {
      WalkStep(d, pos, l, rounds);
      var at := NextPos(l, pos);
      var s := RecordAt(d, at);
      if s != [] {
        ScanMeets(s, l);
        if MetInRecord(s, 0, l[|l| - 1]).Nothing? {
          WalkMeets(d, at + SECTOR_SIZE, ScanRecord(s, 0, l).logical, rounds - 1, base);
        }
      }
    }
  }

  /** For a Finux partition behind any later link the tool agrees with the loader if and only if, going
      on from the second table's relative sector number as if it were absolute, it first meets a Finux
      entry which, with the entry listed before it, adds up to the right distance. */
  lemma LaterIsFoundIff(d: seq<byte>, x: nat, e: nat, chain: seq<Logical>, i: nat)
    requires |d| >= SECTOR_SIZE && ToolMbr(Sector(d, 0), x, e) && ChainOnDisk(d, e, chain) && 1 <= i < |chain|
    requires chain[0].part.kind != FINUX_SYSID
    ensures SECTOR_SIZE * (e + 1) <= |d|
    ensures ToolBase(d) == Base(AbsoluteStart(e, chain, i)) <==>
              var m := Meet(d, SECTOR_SIZE * (e + 1), Entry(Sector(d, e), 1), 9);
              m.Met? && m.last.first + m.finux.first == chain[i].table + chain[i].part.first
    ensures Entry(Sector(d, e), 1).kind == PART_EXTENDED && Entry(Sector(d, e), 1).first == chain[1].table
  {
    hide Entry, ScanRecord, WalkRecords, Meet;
    OnlyExtended(Sector(d, 0), x, e);
    assert LinkOnDisk(d, e, chain, 0);
    var s0, ext := Sector(d, e), Entry(Sector(d, 0), x);
    var l := [ext] + [Entry(s0, 0)] + [Entry(s0, 1)];
    assert RecordAt(d, 0) == Sector(d, 0);
    SectorIsRecord(d, e);
    ScanBoth(s0, [ext]);
    WalkStep(d, SECTOR_SIZE, [ext], 10);
    assert e * SECTOR_SIZE + SECTOR_SIZE == SECTOR_SIZE * (e + 1);
    assert ToolBase(d) == WalkRecords(d, SECTOR_SIZE * (e + 1), l, 9);
    WalkMeets(d, SECTOR_SIZE * (e + 1), l, 9, AbsoluteStart(e, chain, i));
  }

  lemma SectorIsRecord(d: seq<byte>, lba: nat)
    requires SECTOR_SIZE * (lba + 1) <= |d|
    ensures RecordAt(d, lba * SECTOR_SIZE) == Sector(d, lba)
  {
  }

  lemma ScanBoth(s: seq<byte>, l: seq<Part>)
    requires |s| == SECTOR_SIZE && l != []
    requires forall j | 0 <= j < 2 :: Entry(s, j).kind != PART_EMPTY && Entry(s, j).kind != FINUX_SYSID
    ensures ScanRecord(s, 0, l) == Go(l + [Entry(s, 0)] + [Entry(s, 1)])
  {
    hide Entry;
    assert ScanRecord(s, 2, l + [Entry(s, 0)] + [Entry(s, 1)]) == Go(l + [Entry(s, 0)] + [Entry(s, 1)]);
    assert ScanRecord(s, 1, l + [Entry(s, 0)]) == Go(l + [Entry(s, 0)] + [Entry(s, 1)]);
  }

  lemma ScanFinux(s: seq<byte>, l: seq<Part>)
    requires |s| == SECTOR_SIZE && |l| > 1 && Entry(s, 0).kind == FINUX_SYSID
    ensures ScanRecord(s, 0, l) == Done(Base(l[0].first + l[|l| - 1].first + Entry(s, 0).first))
  {
    hide Entry;
  }

  // ----- Reading and writing the tables -----

  function InodesBytes(l: seq<Inode>): (r: seq<byte>)
    ensures |r| == 16 * |l|
  {
    if l == [] then [] else InodesBytes(l[..|l| - 1]) + InodeBytes(l[|l| - 1])
  }

  /** Each inode is found where it was written. */
  lemma {:induction false} InodesBytesAt(l: seq<Inode>, k: nat)
    requires k < |l|
    ensures InodesBytes(l)[16 * k..16 * k + 16] == InodeBytes(l[k])
    decreases |l|
  {
    var n := |l| - 1;
    if k < n {
      InodesBytesAt(l[..n], k);
      assert InodesBytes(l)[16 * k..16 * k + 16] == InodesBytes(l[..n])[16 * k..16 * k + 16];
    }
  }

  function InodesAt(d: seq<byte>, o: nat, n: nat): (r: seq<Inode>)
    requires o + 16 * n <= |d|
    ensures |r| == n && forall k | 0 <= k < n :: r[k] == InodeAt(d, o + 16 * k)
  {
    seq(n, k requires 0 <= k < n => InodeAt(d, o + 16 * k))
  }

  /** get_super_block */
  method GetSuperBlock(hd: Disk, baseLBA: nat) returns (sb: SuperBlock)
    requires SECTOR_SIZE * (baseLBA + 2) <= |hd.bytes|
    modifies hd`pos
    ensures sb == SuperAt(hd.bytes, baseLBA)
  {
    hd.pos := (baseLBA + 1) * SECTOR_SIZE;
    ghost var o := hd.pos;
    var superblock := hd.ReadNext(15 * 4);
    SliceOfSlice(hd.bytes, o, o + SECTOR_SIZE, 0, 60);
    sb := SuperOf(Decode(superblock));
  }

  /** get_inode_array */
  method GetInodeArray(hd: Disk, sb: SuperBlock) returns (inode_area: seq<Inode>)
    requires 16 * sb.inode_cnt <= 0x7d0 && SECTOR_SIZE * sb.inode_array_start + 0x7d0 <= |hd.bytes|
    modifies hd`pos
    ensures inode_area == InodesAt(hd.bytes, SECTOR_SIZE * sb.inode_array_start, sb.inode_cnt)
  {
    hd.pos := sb.inode_array_start * SECTOR_SIZE;
    ghost var o := hd.pos;
    var inode_tmp := hd.ReadNext(0x7d0);
    inode_area := [];
    for i := 0 to sb.inode_cnt
      invariant inode_area == InodesAt(hd.bytes, o, i)
    {
      SliceOfSlice(hd.bytes, o, o + 0x7d0, 16 * i, 16 * i + 16);
      inode_area := inode_area + [InodeAt(inode_tmp, 16 * i)];
    }
  }

  /** write_inode_array */
  method WriteInodeArray(hd: Disk, sb: SuperBlock, inode_array: seq<Inode>)
    requires SECTOR_SIZE * sb.inode_array_start + 16 * |inode_array| <= |hd.bytes|
    modifies hd
    ensures hd.bytes == Put(old(hd.bytes), SECTOR_SIZE * sb.inode_array_start, InodesBytes(inode_array))
  {
    hd.pos := sb.inode_array_start * SECTOR_SIZE;
    ghost var d, o := hd.bytes, hd.pos;
    PutNothing(d, o);
    for i := 0 to |inode_array|
      invariant |hd.bytes| == |d| && hd.pos == o + 16 * i
      invariant hd.bytes == Put(d, o, InodesBytes(inode_array[..i]))
    {
      PutPut(d, o, InodesBytes(inode_array[..i]), InodeBytes(inode_array[i]));
      assert inode_array[..i + 1][..i] == inode_array[..i];
      hd.WriteNext(InodeBytes(inode_array[i]));
    }
    assert inode_array[..|inode_array|] == inode_array;
  }

  /** write_inode_map and write_sector_map: a list of bytes, one byte at a time. */
  method WriteMap(hd: Disk, start: nat, map_: seq<byte>)
    requires SECTOR_SIZE * start + |map_| <= |hd.bytes|
    modifies hd
    ensures hd.bytes == Put(old(hd.bytes), SECTOR_SIZE * start, map_)
  {
    hd.pos := start * SECTOR_SIZE;
    ghost var d, o := hd.bytes, hd.pos;
    PutNothing(d, o);
    for i := 0 to |map_|
      invariant |hd.bytes| == |d| && hd.pos == o + i && hd.bytes == Put(d, o, map_[..i])
    {
      PutPut(d, o, map_[..i], [map_[i]]);
      assert map_[..i] + [map_[i]] == map_[..i + 1];
      hd.WriteNext([map_[i]]);
    }
    assert map_[..|map_|] == map_;
  }

  /** The copy loop of cp_file: the file goes out in pieces of at most 512 bytes. */
  method CopyData(hd: Disk, ext_file: seq<byte>)
    requires hd.pos + |ext_file| <= |hd.bytes|
    modifies hd
    ensures hd.bytes == Put(old(hd.bytes), old(hd.pos), ext_file)
  {
    hide Put;
    ghost var d, o := hd.bytes, hd.pos;
    PutNothing(d, o);
    assert ext_file[..0] == [];
    var done := 0;
    var buf := ext_file[..if |ext_file| < SECTOR_SIZE then |ext_file| else SECTOR_SIZE];
    while |buf| > 0
      invariant 0 <= done <= |ext_file| && hd.pos == o + done && |hd.bytes| == |d|
      invariant buf == ext_file[done..if |ext_file| < done + SECTOR_SIZE then |ext_file| else done + SECTOR_SIZE]
      invariant hd.bytes == Put(d, o, ext_file[..done])
      decreases |ext_file| - done
    {
      PutPut(d, o, ext_file[..done], buf);
      assert ext_file[..done] + buf == ext_file[..done + |buf|];
      hd.WriteNext(buf);
      done := done + |buf|;
      buf := ext_file[done..if |ext_file| < done + SECTOR_SIZE then |ext_file| else done + SECTOR_SIZE];
    }
    assert ext_file[..done] == ext_file;
  }

  /** find_inode_in_map; 100 stands for None. */
  method FindInodeInMap(inode_map: seq<byte>) returns (r: nat)
    requires |inode_map| == 100
    ensures r <= 100 && (r < 100 ==> inode_map[r] == 0) && forall k | 0 <= k < r :: inode_map[k] != 0
  {
    for i := 0 to 100
      invariant forall k | 0 <= k < i :: inode_map[k] != 0
    {
      if inode_map[i] == 0 {
        return i;
      }
    }
    return 100;
  }

  // ----- The root directory -----

  /** Entry k of the directory that starts at byte o. */
  function EntryName(d: seq<byte>, o: nat, k: nat): seq<byte>
    requires o + 16 * k + 16 <= |d|
  {
    d[o + 16 * k + 4..o + 16 * k + 16]
  }

  function EntryInode(d: seq<byte>, o: nat, k: nat): word
    requires o + 16 * k + 16 <= |d|
  {
    DecodeWord(d[o + 16 * k..o + 16 * k + 4])
  }

  lemma EntryInSector(d: seq<byte>, o: nat, i: nat, j: nat)
    requires o + SECTOR_SIZE * (i + 1) <= |d| && j < 32
    ensures var sector := d[o + SECTOR_SIZE * i..o + SECTOR_SIZE * i + SECTOR_SIZE];
      && sector[16 * j + 4..16 * j + 16] == EntryName(d, o, 32 * i + j)
      && DecodeWord(sector[16 * j..16 * j + 4]) == EntryInode(d, o, 32 * i + j)
  {
    var at := o + SECTOR_SIZE * i;
    SliceOfSlice(d, at, at + SECTOR_SIZE, 16 * j + 4, 16 * j + 16);
    SliceOfSlice(d, at, at + SECTOR_SIZE, 16 * j, 16 * j + 4);
  }

  predicate NameInRoot(d: seq<byte>, o: nat, n: nat, name: seq<byte>)
    requires o + 16 * n <= |d|
  {
    exists k :: 0 <= k < n && EntryName(d, o, k) == name
  }

  /** find_file_in_root: whether some entry has the name. */
  method FindFileInRoot(hd: Disk, name: seq<byte>, root_inode: Inode) returns (found: bool)
    requires SECTOR_SIZE * (root_inode.file_start_sect + root_inode.file_sector_cnt) <= |hd.bytes|
    modifies hd`pos
    ensures found <==> NameInRoot(hd.bytes, SECTOR_SIZE * root_inode.file_start_sect, 32 * root_inode.file_sector_cnt,
          name)
  {
    hd.pos := root_inode.file_start_sect * SECTOR_SIZE;
    ghost var o := hd.pos;
    for i := 0 to root_inode.file_sector_cnt
      invariant hd.pos == o + SECTOR_SIZE * i
      invariant forall k | 0 <= k < 32 * i :: EntryName(hd.bytes, o, k) != name
    {
      var sector := hd.ReadNext(SECTOR_SIZE);
      for j := 0 to 32
        invariant hd.pos == o + SECTOR_SIZE * (i + 1)
        invariant forall k | 0 <= k < 32 * i + j :: EntryName(hd.bytes, o, k) != name
      {
        EntryInSector(hd.bytes, o, i, j);
        if sector[16 * j + 4..16 * j + 16] == name {
          assert EntryName(hd.bytes, SECTOR_SIZE * root_inode.file_start_sect, 32 * i + j) == name;
          return true;
        }
      }
    }
    return false;
  }

  /** The entry takes this name or is unused. */
  predicate Takes(d: seq<byte>, o: nat, k: nat, name: seq<byte>)
    requires o + 16 * k + 16 <= |d|
  {
    EntryName(d, o, k) == name || EntryInode(d, o, k) == 0
  }

  /** Names are cut or filled up with blanks to twelve bytes. */
  function Padded(name: seq<byte>): (r: seq<byte>)
    ensures |r| == 12
  {
    if |name| < 12 then name + seq(12 - |name|, i => 32) else name[..12]
  }

  function EntryBytes(inode_num: word, name: seq<byte>): (r: seq<byte>)
    ensures |r| == 16
  {
    EncodeWord(inode_num) + Padded(name)
  }

  /** The sixteen bytes of an entry on the disk: the inode's number, the low byte first, and the name,
      cut at twelve characters or filled up with blanks. */
  lemma EntryOnDisk(d: seq<byte>, p: nat, inode_num: word, name: seq<byte>)
    requires p + 16 <= |d|
    ensures var d' := Put(d, p, EntryBytes(inode_num, name));
      && (inode_num < 256 ==> d'[p] == inode_num && d'[p + 1] == 0 && d'[p + 2] == 0 && d'[p + 3] == 0)
      && DecodeWord(d'[p..p + 4]) == inode_num
      && forall i | 0 <= i < 12 :: d'[p + 4 + i] == if i < |name| then name[i] else 0x20
  {
    hide Put;
    var x, d' := EntryBytes(inode_num, name), Put(d, p, EntryBytes(inode_num, name));
    forall i | 0 <= i < 16 ensures d'[p + i] == x[i] {
      PutAt(d, p, x, p + i);
    }
    DecodeEncode(inode_num);
    assert d'[p..p + 4] == x[..4] == EncodeWord(inode_num);
    forall i | 0 <= i < 12 ensures d'[p + 4 + i] == if i < |name| then name[i] else 0x20 {
      assert d'[p + (4 + i)] == x[4 + i] == Padded(name)[i];
    }
  }

  /** What was written as entry k is read as entry k. */
  lemma EntryReadsBack(d: seq<byte>, o: nat, k: nat, inode_num: word, name: seq<byte>, i: nat)
    requires o + 16 * k + 16 <= |d| && i < 12
    ensures var d' := Put(d, o + 16 * k, EntryBytes(inode_num, name));
      && EntryInode(d', o, k) == inode_num
      && EntryName(d', o, k)[i] == if i < |name| then name[i] else 0x20
  {
    hide Put, EntryBytes;
    var p := o + 16 * k;
    EntryOnDisk(d, p, inode_num, name);
    SliceAt(Put(d, p, EntryBytes(inode_num, name)), p + 4, p + 16, i);
  }

  lemma SliceAt(d: seq<byte>, a: nat, b: nat, i: nat)
    requires a <= b <= |d| && i < b - a
    ensures d[a..b][i] == d[a + i]
  {
  }

  /** Writing back a sector with some bytes replaced is writing those bytes. */
  lemma ReplacedInSector(d: seq<byte>, at: nat, sector: seq<byte>, off: nat, x: seq<byte>)
    requires at + |sector| <= |d| && sector == d[at..at + |sector|] && off + |x| <= |sector|
    ensures Put(d, at, sector[..off] + x + sector[off + |x|..]) == Put(d, at + off, x)
  {
    hide Put;
    var s' := sector[..off] + x + sector[off + |x|..];
    forall i | 0 <= i < |d| ensures Put(d, at, s')[i] == Put(d, at + off, x)[i] {
      PutAt(d, at, s', i);
      PutAt(d, at + off, x, i);
      assert at <= i < at + |sector| ==> sector[i - at] == d[i];
    }
  }

  /** The sector just read goes back with entry j replaced. */
  method ReplaceEntry(hd: Disk, sector: seq<byte>, j: nat, entry: seq<byte>)
    requires hd.pos >= SECTOR_SIZE && hd.pos <= |hd.bytes| && j < 32 && |entry| == 16
    requires sector == hd.bytes[hd.pos - SECTOR_SIZE..hd.pos]
    modifies hd
    ensures hd.bytes == Put(old(hd.bytes), old(hd.pos) - SECTOR_SIZE + 16 * j, entry)
  {
    ReplacedInSector(hd.bytes, hd.pos - SECTOR_SIZE, sector, 16 * j, entry);
    var sector' := sector[..j * 0x10] + entry + sector[(j + 1) * 0x10..];
    hd.pos := hd.pos - SECTOR_SIZE;
    hd.WriteNext(sector');
  }

  /** The directory entry went to the first entry that could take it, or the directory was full. */
  ghost predicate EntryWritten(d: seq<byte>, d': seq<byte>, root: Inode, slot: nat, inode_num: word, name: seq<byte>) {
    var o := SECTOR_SIZE * root.file_start_sect;
    && SECTOR_SIZE * (root.file_start_sect + root.file_sector_cnt) <= |d|
    && slot <= 32 * root.file_sector_cnt
    && (forall k | 0 <= k < slot :: !Takes(d, o, k, name))
    && if slot < 32 * root.file_sector_cnt then
         Takes(d, o, slot, name) && d' == Put(d, o + 16 * slot, EntryBytes(inode_num, name))
       else
         d' == d
  }

  lemma EntryIsWritten(d: seq<byte>, d': seq<byte>, root: Inode, i: nat, j: nat, inode_num: word, name: seq<byte>)
    requires SECTOR_SIZE * (root.file_start_sect + root.file_sector_cnt) <= |d| && i < root.file_sector_cnt && j < 32
    requires var o := SECTOR_SIZE * root.file_start_sect;
      && (forall k | 0 <= k < 32 * i + j :: !Takes(d, o, k, name)) && Takes(d, o, 32 * i + j, name)
      && d' == Put(d, o + SECTOR_SIZE * i + 16 * j, EntryBytes(inode_num, name))
    ensures EntryWritten(d, d', root, 32 * i + j, inode_num, name)
  {
    hide Takes, Put, EntryBytes;
  }

  /** The body of the inner if, for entry j of the i-th sector. */
  method TakeEntry(hd: Disk, sector: seq<byte>, ghost root: Inode, i: nat, j: nat, inode_num: word, name: seq<byte>)
    returns (slot: nat)
    requires SECTOR_SIZE * (root.file_start_sect + root.file_sector_cnt) <= |hd.bytes|
    requires i < root.file_sector_cnt && j < 32
    requires var o := SECTOR_SIZE * root.file_start_sect;
      && hd.pos == o + SECTOR_SIZE * (i + 1) 
      && sector == hd.bytes[o + SECTOR_SIZE * i..o + SECTOR_SIZE * i + SECTOR_SIZE]
      && (forall k | 0 <= k < 32 * i + j :: !Takes(hd.bytes, o, k, name)) && Takes(hd.bytes, o, 32 * i + j, name)
    modifies hd
    ensures slot == 32 * i + j && EntryWritten(old(hd.bytes), hd.bytes, root, slot, inode_num, name)
  {
    hide Takes, EntryWritten, Put, EntryBytes;
    ReplaceEntry(hd, sector, j, EntryBytes(inode_num, name));
    EntryIsWritten(old(hd.bytes), hd.bytes, root, i, j, inode_num, name);
    return 32 * i + j;
  }

  /** write_entry_in_root: the first entry that has the name or is unused is overwritten, by writing
      its whole sector; a full directory is left as it is. */
  method WriteEntryInRoot(hd: Disk, inode_num: word, name: seq<byte>, root_inode: Inode) returns (slot: nat)
    requires SECTOR_SIZE * (root_inode.file_start_sect + root_inode.file_sector_cnt) <= |hd.bytes|
    modifies hd
    ensures EntryWritten(old(hd.bytes), hd.bytes, root_inode, slot, inode_num, name)
  {
    hide EntryName, EntryInode, Put, EntryWritten;
    hd.pos := root_inode.file_start_sect * SECTOR_SIZE;
    ghost var d, o := hd.bytes, hd.pos;
    for i := 0 to root_inode.file_sector_cnt
      invariant hd.bytes == d && hd.pos == o + SECTOR_SIZE * i
      invariant forall k | 0 <= k < 32 * i :: !Takes(d, o, k, name)
    {
      var sector := hd.ReadNext(SECTOR_SIZE);
      for j := 0 to 32
        invariant hd.bytes == d && hd.pos == o + SECTOR_SIZE * (i + 1)
        invariant forall k | 0 <= k < 32 * i + j :: !Takes(d, o, k, name)
      {
        EntryInSector(d, o, i, j);
        if sector[16 * j + 4..16 * j + 16] == name || DecodeWord(sector[16 * j..16 * j + 4]) == 0 {
          slot := TakeEntry(hd, sector, root_inode, i, j, inode_num, name);
          return;
        }
      }
    }
    DirectoryFull(d, root_inode, inode_num, name);
    return 32 * root_inode.file_sector_cnt;
  }

  lemma DirectoryFull(d: seq<byte>, root: Inode, inode_num: word, name: seq<byte>)
    requires SECTOR_SIZE * (root.file_start_sect + root.file_sector_cnt) <= |d|
    requires forall k | 0 <= k < 32 * root.file_sector_cnt :: !Takes(d, SECTOR_SIZE * root.file_start_sect, k, name)
    ensures EntryWritten(d, d, root, 32 * root.file_sector_cnt, inode_num, name)
  {
    hide Takes;
  }

  // ----- The whole copy -----

  /** The tables the super block describes lie on the disk, and inode 0 is in use for the root. */
  ghost predicate TablesOnDisk(d: seq<byte>, sb: SuperBlock) {
    && sb.inode_cnt == MAX_INODE_CNT
    && SECTOR_SIZE * sb.inode_array_start + 0x7d0 <= |d|
    && SECTOR_SIZE * sb.inode_map_start + 100 <= |d| && d[SECTOR_SIZE * sb.inode_map_start] != 0
    && SECTOR_SIZE * sb.sector_map_start + MapBytes(sb) <= |d|
    && sb.first_data_sector + 8 * MapBytes(sb) < U32
    && var root := InodeAt(d, SECTOR_SIZE * sb.inode_array_start);
    && SECTOR_SIZE * (root.file_start_sect + root.file_sector_cnt) <= |d|
  }

  ghost predicate Mountable(d: seq<byte>, base: nat) {
    SECTOR_SIZE * (base + 2) <= |d| && TablesOnDisk(d, SuperAt(d, base))
  }

  function MapBytes(sb: SuperBlock): nat {
    (sb.sector_cnt as int + 7) / 8
  }

  function SectorsFor(size: nat): nat {
    (size + 511) / 512
  }

  /** The map has a bit for every sector of the partition, and a file just enough sectors. */
  lemma JustEnough(sb: SuperBlock, size: nat)
    ensures sb.sector_cnt <= 8 * MapBytes(sb) < sb.sector_cnt + 8
    ensures size <= 512 * SectorsFor(size) < size + 512
  {
  }

  /** Extends: the data would run past the end of the disk image, which the model does not follow. */
  datatype Copy = Copied(inode_num: nat, sector_num: nat, slot: nat) | Crash | Extends

  /** The data, then the inode array, inode map and sector map as they were read with the new file in
      them. */
  ghost function WithTables(d: seq<byte>, sb: SuperBlock, n: nat, place: nat, file: seq<byte>): (r: seq<byte>)
    requires n < 100 && 0 < |file| < U32
    requires SECTOR_SIZE * sb.inode_array_start + 1600 <= |d| && SECTOR_SIZE * sb.inode_map_start + 100 <= |d|
    requires SECTOR_SIZE * sb.sector_map_start + MapBytes(sb) <= |d|
    requires SECTOR_SIZE * (sb.first_data_sector + place) + |file| <= |d|
    requires sb.first_data_sector + 8 * place < U32
    ensures |r| == |d|
  {
    var inodes := InodesAt(d, SECTOR_SIZE * sb.inode_array_start, 100)[n := NewInode(sb, place, |file|)];
    var d1 := Put(d, SECTOR_SIZE * (sb.first_data_sector + place), file);
    var d2 := Put(d1, SECTOR_SIZE * sb.inode_array_start, InodesBytes(inodes));
    var d3 := Put(d2, SECTOR_SIZE * sb.inode_map_start, InodeMap(d, sb)[n := 1]);
    Put(d3, SECTOR_SIZE * sb.sector_map_start, SectorMap.Marked(SectorMapOf(d, sb), place, SectorsFor(|file|)))
  }

  function NewInode(sb: SuperBlock, place: nat, size: nat): Inode
    requires size < U32 && sb.first_data_sector + 8 * place < U32
  {
    Inode(2, size, sb.first_data_sector + 8 * place, SectorsFor(size))
  }

  function InodeMap(d: seq<byte>, sb: SuperBlock): (r: seq<byte>)
    requires SECTOR_SIZE * sb.inode_map_start + 100 <= |d|
    ensures |r| == 100
  {
    d[SECTOR_SIZE * sb.inode_map_start..SECTOR_SIZE * sb.inode_map_start + 100]
  }

  function SectorMapOf(d: seq<byte>, sb: SuperBlock): (r: seq<byte>)
    requires SECTOR_SIZE * sb.sector_map_start + MapBytes(sb) <= |d|
    ensures |r| == MapBytes(sb)
  {
    d[SECTOR_SIZE * sb.sector_map_start..SECTOR_SIZE * sb.sector_map_start + MapBytes(sb)]
  }

  // ----- What the whole-table writes come to -----

  lemma InodeReadBack(d: seq<byte>, p: nat)
    requires p + 16 <= |d|
    ensures InodeBytes(InodeAt(d, p)) == d[p..p + 16]
  {
    var w := Decode(d[p..p + 16]);
    assert w == [w[0], w[1], w[2], w[3]];
    EncodeDecodeWords(d[p..p + 16]);
  }

  /** Packing the inodes that were unpacked gives the bytes they came from. */
  lemma {:induction false} InodesReadBack(d: seq<byte>, o: nat, n: nat)
    requires o + 16 * n <= |d|
    ensures InodesBytes(InodesAt(d, o, n)) == d[o..o + 16 * n]
    decreases n
  {
    hide InodeBytes, InodeAt;
    if n > 0 {
      InodesReadBack(d, o, n - 1);
      InodeReadBack(d, o + 16 * (n - 1));
      assert InodesAt(d, o, n)[..n - 1] == InodesAt(d, o, n - 1);
      assert d[o..o + 16 * n] == d[o..o + 16 * (n - 1)] + d[o + 16 * (n - 1)..o + 16 * n];
    }
  }

  lemma CutOut(a: seq<byte>, b: seq<byte>, lo: nat, hi: nat)
    requires lo <= hi <= |a|
    ensures (a + b)[..lo] == a[..lo] && (a + b)[hi..] == a[hi..] + b
  {
  }

  lemma {:induction false} InodeReplaced(l: seq<Inode>, k: nat, x: Inode)
    requires k < |l|
    ensures var b := InodesBytes(l); InodesBytes(l[k := x]) == b[..16 * k] + InodeBytes(x) + b[16 * k + 16..]
    decreases |l|
  {
    hide InodeBytes;
    var n := |l| - 1;
    var a, z := InodesBytes(l[..n]), InodeBytes(l[n]);
    if k < n {
      InodeReplaced(l[..n], k, x);
      assert l[k := x][..n] == l[..n][k := x];
      CutOut(a, z, 16 * k, 16 * k + 16);
      assert InodesBytes(l[k := x]) == a[..16 * k] + InodeBytes(x) + a[16 * k + 16..] + z;
    } else {
      assert l[k := x][..n] == l[..n];
      assert InodesBytes(l[k := x]) == a + InodeBytes(x);
      assert (a + z)[16 * k + 16..] == [];
    }
  }

  /** The tables lie one behind the other in front of the data area. */
  predicate TablesApart(sb: SuperBlock) {
    && SECTOR_SIZE * sb.inode_map_start + 100 <= SECTOR_SIZE * sb.sector_map_start
    && SECTOR_SIZE * sb.sector_map_start + MapBytes(sb) <= SECTOR_SIZE * sb.inode_array_start
    && SECTOR_SIZE * sb.inode_array_start + 1600 <= SECTOR_SIZE * sb.first_data_sector
  }

  lemma OneInodeWritten(d: seq<byte>, d1: seq<byte>, o: nat, n: nat, x: Inode)
    requires n < 100 && o + 1600 <= |d| == |d1| && d1[o..o + 1600] == d[o..o + 1600]
    ensures Put(d1, o, InodesBytes(InodesAt(d, o, 100)[n := x])) == Put(d1, o + 16 * n, InodeBytes(x))
  {
    hide Put, InodesBytes, InodesAt, InodeBytes;
    InodesReadBack(d, o, 100);
    InodeReplaced(InodesAt(d, o, 100), n, x);
    ReplacedInSector(d1, o, d[o..o + 1600], 16 * n, InodeBytes(x));
  }

  lemma OneByteWritten(d1: seq<byte>, o: nat, map_: seq<byte>, n: nat, x: byte)
    requires n < |map_| && o + |map_| <= |d1| && d1[o..o + |map_|] == map_
    ensures Put(d1, o, map_[n := x]) == Put(d1, o + n, [x])
  {
    hide Put;
    assert map_[n := x] == map_[..n] + [x] + map_[n + 1..];
    ReplacedInSector(d1, o, map_, n, [x]);
  }

  /** Although cp writes back the whole inode array and the whole inode map, it changes the new file's
      inode and the byte that stands for it, and no other. */
  lemma OnlyTheNewFile(d: seq<byte>, sb: SuperBlock, n: nat, place: nat, file: seq<byte>)
    requires n < 100 && 0 < |file| < U32 && TablesApart(sb) && sb.first_data_sector + 8 * place < U32
    requires SECTOR_SIZE * sb.inode_array_start + 1600 <= |d|
    requires SECTOR_SIZE * (sb.first_data_sector + place) + |file| <= |d|
    ensures var d1 := Put(d, SECTOR_SIZE * (sb.first_data_sector + place), file);
      var d2 := Put(d1, SECTOR_SIZE * sb.inode_array_start + 16 * n, InodeBytes(NewInode(sb, place, |file|)));
      var d3 := Put(d2, SECTOR_SIZE * sb.inode_map_start + n, [1]);
      WithTables(d, sb, n, place, file)
      == Put(d3, SECTOR_SIZE * sb.sector_map_start, SectorMap.Marked(SectorMapOf(d, sb), place, SectorsFor(|file|)))
  {
    hide Put, InodesBytes, InodesAt, InodeBytes, SectorMap.Marked;
    var o, om, od := SECTOR_SIZE * sb.inode_array_start, SECTOR_SIZE * sb.inode_map_start,
        SECTOR_SIZE * (sb.first_data_sector + place);
    var d1 := Put(d, od, file);
    PutElsewhere(d, od, file, o, o + 1600);
    PutElsewhere(d, od, file, om, om + 100);
    OneInodeWritten(d, d1, o, n, NewInode(sb, place, |file|));
    var d2 := Put(d1, o + 16 * n, InodeBytes(NewInode(sb, place, |file|)));
    PutElsewhere(d1, o + 16 * n, InodeBytes(NewInode(sb, place, |file|)), om, om + 100);
    OneByteWritten(d2, om, InodeMap(d, sb), n, 1);
  }

  // ----- What cp does -----

  /** What cp_file chooses: the first free inode and a first-fit place. */
  ghost predicate Chosen(d: seq<byte>, sb: SuperBlock, n: nat, place: nat, size: nat)
    requires SECTOR_SIZE * sb.inode_map_start + 100 <= |d| && SECTOR_SIZE * sb.sector_map_start + MapBytes(sb) <= |d|
  {
    && n < 100 && InodeMap(d, sb)[n] == 0 && (forall k | 0 <= k < n :: InodeMap(d, sb)[k] != 0)
    && 0 < size && place + SectorMap.Units(SectorsFor(size)) <= MapBytes(sb)
    && SectorMap.Allocates(SectorMapOf(d, sb), SectorMap.Extent(place, SectorsFor(size)),
                           SectorMap.Marked(SectorMapOf(d, sb), place, SectorsFor(size)))
  }

  /** Some inode is free. */
  ghost predicate FreeInode(d: seq<byte>, sb: SuperBlock)
    requires SECTOR_SIZE * sb.inode_map_start + 100 <= |d|
  {
    exists k :: 0 <= k < 100 && InodeMap(d, sb)[k] == 0
  }

  /** First fit puts the file at map byte p. */
  ghost predicate PlaceIs(d: seq<byte>, sb: SuperBlock, size: nat, p: nat)
    requires 0 < size && SECTOR_SIZE * sb.sector_map_start + MapBytes(sb) <= |d|
  {
    SectorMap.FitsAt(SectorMapOf(d, sb), p, SectorsFor(size))
  }

  /** There is a free inode, and the beginning of the data area has room for the file. */
  ghost predicate RoomAtStart(d: seq<byte>, sb: SuperBlock, size: nat)
    requires SECTOR_SIZE * sb.inode_map_start + 100 <= |d| && SECTOR_SIZE * sb.sector_map_start + MapBytes(sb) <= |d|
  {
    && (exists k :: 0 <= k < 100 && InodeMap(d, sb)[k] == 0)
    && SectorMap.ZeroFrom(SectorMapOf(d, sb), 0, SectorMap.Units(SectorsFor(size)))
    && SectorMap.Units(SectorsFor(size)) < MapBytes(sb)
    && SECTOR_SIZE * sb.first_data_sector + size <= |d|
  }

  lemma RoomMeansFits(d: seq<byte>, sb: SuperBlock, size: nat)
    requires SECTOR_SIZE * sb.inode_map_start + 100 <= |d| && SECTOR_SIZE * sb.sector_map_start + MapBytes(sb) <= |d|
    ensures RoomAtStart(d, sb, size) ==> SECTOR_SIZE * sb.first_data_sector + size <= |d|
  {
  }

  lemma ChosenIsOnDisk(d: seq<byte>, sb: SuperBlock, n: nat, place: nat, size: nat)
    requires TablesOnDisk(d, sb) && Chosen(d, sb, n, place, size)
    ensures n < 100 && sb.first_data_sector + 8 * place < U32
  {
  }

  /** cp_file puts the data where the inode says it is only for a file at the start of the data area. */
  lemma DataIsWhereInodeSays(sb: SuperBlock, place: nat, size: nat)
    requires size < U32 && sb.first_data_sector + 8 * place < U32
    ensures sb.first_data_sector + place == NewInode(sb, place, size).file_start_sect <==> place == 0
  {
  }

  /** The map's bit for sector s of the data area, eight to a byte, the highest first. */
  predicate SectorMarked(map_: seq<byte>, s: nat)
    requires s / 8 < |map_|
  {
    SectorMap.BitSet(map_[s / 8], s % 8)
  }

  /** Every sector the inode of a new file records is marked in the map written with it; a file of up to
      eight sectors has no other of its byte marked. */
  lemma InodeSectorsAreMarked(map_: seq<byte>, sb: SuperBlock, place: nat, size: nat, s: nat)
    requires 0 < size < U32 && sb.first_data_sector + 8 * place < U32
    requires place + SectorMap.Units(SectorsFor(size)) <= |map_|
    requires var i := NewInode(sb, place, size);
      i.file_start_sect <= sb.first_data_sector + s < i.file_start_sect + i.file_sector_cnt
    ensures s / 8 < |map_| && SectorMarked(SectorMap.Marked(map_, place, SectorsFor(size)), s)
  {
    var cnt := SectorsFor(size);
    var k, j := s / 8, s % 8;
    assert 8 * place <= s < 8 * place + cnt && s == 8 * k + j;
    if cnt <= 8 {
      assert k == place;
      SectorMap.HighBitsAreSet(cnt, j);
    } else {
      assert place <= k < place + SectorMap.Units(cnt);
      SectorMap.HighBitsAreSet(8, j);
      SectorMap.AllHighBits();
    }
  }

  datatype Choice = Fail | Choice(n: nat, place: nat, inode_map: seq<byte>, sector_map: seq<byte>)

  lemma RoomIsPlace(d: seq<byte>, sb: SuperBlock, size: nat)
    requires 0 < size && SECTOR_SIZE * sb.sector_map_start + MapBytes(sb) <= |d|
    ensures SectorMap.HasRoom(SectorMapOf(d, sb), SectorsFor(size)) <==> exists p: nat :: PlaceIs(d, sb, size, p)
  {
    hide SectorMap.FitsAt;
    if SectorMap.HasRoom(SectorMapOf(d, sb), SectorsFor(size)) {
      var p: nat :| SectorMap.FitsAt(SectorMapOf(d, sb), p, SectorsFor(size));
      assert PlaceIs(d, sb, size, p);
    }
  }

  lemma AllocatedIsChosen(d: seq<byte>, sb: SuperBlock, n: nat, place: nat, size: nat, map_: seq<byte>)
    requires 0 < size && SECTOR_SIZE * sb.inode_map_start + 100 <= |d|
    requires SECTOR_SIZE * sb.sector_map_start + MapBytes(sb) <= |d|
    requires n < 100 && InodeMap(d, sb)[n] == 0 && forall k | 0 <= k < n :: InodeMap(d, sb)[k] != 0
    requires SectorMap.Allocates(SectorMapOf(d, sb), SectorMap.Extent(place, SectorsFor(size)), map_)
    ensures Chosen(d, sb, n, place, size) && PlaceIs(d, sb, size, place)
    ensures map_ == SectorMap.Marked(SectorMapOf(d, sb), place, SectorsFor(size))
  {
  }

  /** The first half of cp_file, which only reads the disk: an inode and a place for the data. */
  method Choose(hd: Disk, sb: SuperBlock, size: nat) returns (c: Choice)
    requires 0 < size && SECTOR_SIZE * sb.inode_map_start + 100 <= |hd.bytes|
    requires SECTOR_SIZE * sb.sector_map_start + MapBytes(sb) <= |hd.bytes|
    modifies hd`pos
    ensures c.Choice? <==> FreeInode(hd.bytes, sb) && exists p: nat :: PlaceIs(hd.bytes, sb, size, p)
    ensures c.Choice? ==> PlaceIs(hd.bytes, sb, size, c.place)
    ensures RoomAtStart(hd.bytes, sb, size) ==> c.Choice? && c.place == 0
    ensures c.Choice? ==> Chosen(hd.bytes, sb, c.n, c.place, size)
    ensures c.Choice? ==> c.inode_map == InodeMap(hd.bytes, sb)[c.n := 1]
    ensures c.Choice? ==> c.sector_map == SectorMap.Marked(SectorMapOf(hd.bytes, sb), c.place, SectorsFor(size))
  {
    hide SectorMap.Blocked, SectorMap.ZeroFrom, SectorMap.Marked, SectorMap.Allocates;
    ghost var d := hd.bytes;
    hd.pos := sb.inode_map_start * SECTOR_SIZE;
    var inode_map := hd.ReadNext(100);
    assert inode_map == InodeMap(hd.bytes, sb);
    hd.pos := sb.sector_map_start * SECTOR_SIZE;
    var sector_map := hd.ReadNext(MapBytes(sb));
    assert sector_map == SectorMapOf(hd.bytes, sb);
    var inode_num := FindInodeInMap(inode_map);
    if inode_num == 100 {
      return Fail;
    }
    inode_map := inode_map[inode_num := 1];
    var list := new byte[|sector_map|](i requires 0 <= i < |sector_map| => sector_map[i]);
    assert list[..] == sector_map;
    var place := SectorMap.Allocate(list, SectorsFor(size));
    RoomIsPlace(d, sb, size);
    if !place.At? {
      return Fail;
    }
    AllocatedIsChosen(d, sb, inode_num, place.start, size, list[..]);
    return Choice(inode_num, place.start, inode_map, list[..]);
  }

  /** The write-back: cp_file's data and the three tables of the main program. */
  method WriteTables(hd: Disk, sb: SuperBlock, c: Choice, inode_array: seq<Inode>, file: seq<byte>)
    requires TablesOnDisk(hd.bytes, sb) && c.Choice? && 0 < |file| < U32
    requires Chosen(hd.bytes, sb, c.n, c.place, |file|)
    requires c.inode_map == InodeMap(hd.bytes, sb)[c.n := 1]
    requires c.sector_map == SectorMap.Marked(SectorMapOf(hd.bytes, sb), c.place, SectorsFor(|file|))
    requires inode_array == InodesAt(hd.bytes, SECTOR_SIZE * sb.inode_array_start, 100)
    requires SECTOR_SIZE * (sb.first_data_sector + c.place) + |file| <= |hd.bytes|
    modifies hd
    ensures hd.bytes == WithTables(old(hd.bytes), sb, c.n, c.place, file)
  {
    hide Put, InodesBytes, InodesAt, SectorMap.Allocates, SectorMap.Marked;
    hd.pos := (sb.first_data_sector + c.place) * SECTOR_SIZE;
    CopyData(hd, file);
    var inodes := inode_array[c.n := NewInode(sb, c.place, |file|)];
    WriteInodeArray(hd, sb, inodes);
    WriteMap(hd, sb.inode_map_start, c.inode_map);
    WriteMap(hd, sb.sector_map_start, c.sector_map);
  }

  /** A free inode, a place by first fit, and the data there ends on the disk image, or beyond. */
  ghost predicate CanCopy(d: seq<byte>, sb: SuperBlock, size: nat, inside: bool)
    requires 0 < size && SECTOR_SIZE * sb.inode_map_start + 100 <= |d|
    requires SECTOR_SIZE * sb.sector_map_start + MapBytes(sb) <= |d|
  {
    && FreeInode(d, sb)
    && exists p: nat :: PlaceIs(d, sb, size, p)
         && (SECTOR_SIZE * (sb.first_data_sector + p) + size <= |d| <==> inside)
  }

  lemma PlaceDecides(d: seq<byte>, sb: SuperBlock, size: nat, p: nat, inside: bool)
    requires 0 < size && SECTOR_SIZE * sb.inode_map_start + 100 <= |d|
    requires SECTOR_SIZE * sb.sector_map_start + MapBytes(sb) <= |d|
    requires FreeInode(d, sb) && PlaceIs(d, sb, size, p)
    ensures CanCopy(d, sb, size, inside) <==> (SECTOR_SIZE * (sb.first_data_sector + p) + size <= |d| <==> inside)
  {
    hide SectorMap.FitsAt;
    forall q: nat | PlaceIs(d, sb, size, q) ensures q == p {
      SectorMap.FirstFitIsUnique(SectorMapOf(d, sb), p, q, SectorsFor(size));
    }
  }

  lemma NoPlaceNoCopy(d: seq<byte>, sb: SuperBlock, size: nat, inside: bool)
    requires 0 < size && SECTOR_SIZE * sb.inode_map_start + 100 <= |d|
    requires SECTOR_SIZE * sb.sector_map_start + MapBytes(sb) <= |d|
    requires !(FreeInode(d, sb) && exists p: nat :: PlaceIs(d, sb, size, p))
    ensures !CanCopy(d, sb, size, inside)
  {
  }

  /** A successful copy: what it chose and wrote, and the directory entry. */
  ghost predicate Copies(d: seq<byte>, d': seq<byte>, part_base: nat, c: Copy, name: seq<byte>, file: seq<byte>) {
    && Mountable(d, part_base) && 0 < |file| < U32 && c.Copied?
    && var sb := SuperAt(d, part_base);
    && Chosen(d, sb, c.inode_num, c.sector_num, |file|)
    && SECTOR_SIZE * (sb.first_data_sector + c.sector_num) + |file| <= |d|
    && sb.first_data_sector + 8 * c.sector_num < U32
    && EntryWritten(WithTables(d, sb, c.inode_num, c.sector_num, file), d', RootOf(d, part_base), c.slot, c.inode_num,
        name)
  }

  /** The main program for `cp` once the partition is found.  Every failure ends in an exception
      before anything has been written; so does a name that is already there, since for it line 231
      calls `tmp_entry`, which is defined nowhere. */
  method Cp(hd: Disk, part_base: nat, name: seq<byte>, file: seq<byte>) returns (c: Copy)
    requires Mountable(hd.bytes, part_base) && 0 < |file| < U32
    modifies hd
    ensures !c.Copied? ==> hd.bytes == old(hd.bytes)
    ensures c.Copied? ==> Copies(old(hd.bytes), hd.bytes, part_base, c, name, file)
    ensures var root := RootOf(old(hd.bytes), part_base);
      var there := NameInRoot(old(hd.bytes), SECTOR_SIZE * root.file_start_sect, 32 * root.file_sector_cnt, name);
      && (there ==> c == Crash)
      && (c.Copied? <==> !there && CanCopy(old(hd.bytes), SuperAt(old(hd.bytes), part_base), |file|, true))
      && (c == Extends <==> !there && CanCopy(old(hd.bytes), SuperAt(old(hd.bytes), part_base), |file|, false))
      && (!there && RoomAtStart(old(hd.bytes), SuperAt(old(hd.bytes), part_base), |file|) ==>
            c.Copied? && c.sector_num == 0)
  {
    hide Put, InodesBytes, SectorMap.Allocates, NameInRoot, Takes, RoomAtStart;
    hide SuperAt, InodeAt, WithTables, EntryWritten, Chosen, CanCopy, FreeInode, PlaceIs;
    ghost var d := hd.bytes;
    var sb := GetSuperBlock(hd, part_base);
    var inode_array := GetInodeArray(hd, sb);
    var root_inode := inode_array[0];
    assert root_inode == RootOf(d, part_base);
    var there := FindFileInRoot(hd, name, root_inode);
    if there {
      return Crash;
    }
    var choice := Choose(hd, sb, |file|);
    if choice == Fail {
      NoPlaceNoCopy(d, sb, |file|, true);
      NoPlaceNoCopy(d, sb, |file|, false);
      return Crash;
    }
    PlaceDecides(d, sb, |file|, choice.place, true);
    PlaceDecides(d, sb, |file|, choice.place, false);
    assert RoomAtStart(d, sb, |file|) ==> choice.place == 0 && SECTOR_SIZE * sb.first_data_sector + |file| <= |d| by {
      RoomMeansFits(d, sb, |file|);
    }
    if SECTOR_SIZE * (sb.first_data_sector + choice.place) + |file| > |hd.bytes| {
      return Extends;
    }
    ChosenIsOnDisk(d, sb, choice.n, choice.place, |file|);
    WriteTables(hd, sb, choice, inode_array, file);
    var slot := WriteEntryInRoot(hd, choice.n, name, root_inode);
    c := Copied(choice.n, choice.place, slot);
  }

  function RootOf(d: seq<byte>, base: nat): Inode
    requires SECTOR_SIZE * (base + 2) <= |d| && SECTOR_SIZE * SuperAt(d, base).inode_array_start + 16 <= |d|
  {
    InodeAt(d, SECTOR_SIZE * SuperAt(d, base).inode_array_start)
  }
}
