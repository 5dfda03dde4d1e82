/** The boot sector (boot/boot.s): finding LOADER.BIN in the root directory of a floppy disk and
    loading it along its cluster chain.  The segment registers are zero throughout, so that an offset
    is an address; a BIOS read is repeated until it succeeds. */
module FloppyBoot {
  import opened Bytes
  import opened Fat12

  const BPB_SecPerTrk := 18
  const BPB_BytsPerSec := 512
  const OffsetOfReadSector := 0x7e00
  const LoaderBase := 0x9000
  const RootDirFirstSectorNum := 19
  const SectorNumOfRootDir := 14
  const RealDataSectorNum := 31
  const SectorNumOfFAT1 := 1
  const FLOPPY_SECTORS := 2880
  const LoaderFileName: seq<byte> := [76, 79, 65, 68, 69, 82, 32, 32, 66, 73, 78]

  function Sectors(floppy: seq<byte>, lba: nat, n: nat): (r: seq<byte>)
    requires 512 * (lba + n) <= |floppy|
    ensures |r| == 512 * n
  {
    floppy[512 * lba..512 * (lba + n)]
  }

  /** How the drive, with two heads and 18 sectors per track, numbers its sectors. */
  function LbaOf(cylinder: nat, head: nat, sector: nat): int {
    (2 * cylinder + head) * BPB_SecPerTrk + sector - 1
  }

  /** The sector numbers follow from the volume's parameters: one reserved sector, two tables of nine
      sectors, 224 root entries of 32 bytes, then the data area, whose first cluster has number 2. */
  lemma VolumeLayout()
    ensures SectorNumOfFAT1 == 1 && RootDirFirstSectorNum == 1 + 2 * 9
    ensures 512 * SectorNumOfRootDir == 224 * 32
    ensures RealDataSectorNum + 2 == RootDirFirstSectorNum + SectorNumOfRootDir
    ensures FLOPPY_SECTORS == 80 * 2 * 18 && BPB_BytsPerSec == 512
    ensures |LoaderFileName| == 11 && forall i | 0 <= i < 11 :: LoaderFileName[i] == "LOADER  BIN"[i] as int
  {
  }

  /** The drive counts through the eighteen sectors of a track, then the other side, then the next
      cylinder. */
  lemma DriveNumbering(c: nat, h: nat, s: nat)
    ensures LbaOf(0, 0, 1) == 0
    ensures LbaOf(c, h, s + 1) == LbaOf(c, h, s) + 1
    ensures LbaOf(c, 1, 1) == LbaOf(c, 0, 18) + 1
    ensures LbaOf(c + 1, 0, 1) == LbaOf(c, 1, 18) + 1
  {
  }

  class Machine {
    var mem: seq<byte>
    const floppy: seq<byte>

    ghost predicate Valid()
      reads this
    {
      |mem| >= 0x10000 && |floppy| == 512 * FLOPPY_SECTORS
    }

    /** int 0x13 with ah = 2: `al` sectors of one track, from the one given on, to es:bx. */
    method Int13(al: nat, ch: nat, cl: nat, dh: nat, bx: nat)
      requires Valid() && dh < 2 && 1 <= cl && cl + al <= BPB_SecPerTrk + 1
      requires LbaOf(ch, dh, cl) + al <= FLOPPY_SECTORS && bx + 512 * al <= 0x10000
      modifies this
      ensures Valid() && mem == Put(old(mem), bx, Sectors(floppy, LbaOf(ch, dh, cl), al))
    {
      mem := Put(mem, bx, Sectors(floppy, LbaOf(ch, dh, cl), al));
    }

    /** read_sector: the cylinder, head and sector it works out denote the requested sector. */
    method ReadSector(ax: nat, bx: nat, cl: nat)
      requires Valid() && ax + cl <= FLOPPY_SECTORS && ax % BPB_SecPerTrk + cl <= BPB_SecPerTrk
      requires bx + 512 * cl <= 0x10000
      modifies this
      ensures Valid() && mem == Put(old(mem), bx, Sectors(floppy, ax, cl))
    {
      var al, ah := ax / BPB_SecPerTrk, ax % BPB_SecPerTrk;
      var sector := ah + 1;
      var cylinder := al / 2;
      var head := al % 2;
      assert LbaOf(cylinder, head, sector) == ax;
      Int13(cl, cylinder, sector, head, bx);
    }

    /** get_next_sector_in_FAT: the table entry of cluster ax, read through the two sectors that may
        hold it; nothing but the transfer buffer changes. */
    method GetNextSectorInFAT(ax: nat, ghost table: seq<cluster>) returns (next: cluster)
      requires Valid() && |table| <= 3072 && ax < |table|
      requires floppy[512 * SectorNumOfFAT1..512 * SectorNumOfFAT1 + |Pack(table)|] == Pack(table)
      modifies this
      ensures Valid() && next == table[ax]
      ensures exists buf :: |buf| == 1024 && mem == Put(old(mem), OffsetOfReadSector, buf)
    {
      hide Put, Pack, Sectors, LbaOf;
      EntryRead(old(mem), floppy, table, ax);
      var off := ax * 3 / 2;
      var bOdd := ax * 3 % 2;
      var sec, dx := off / BPB_BytsPerSec, off % BPB_BytsPerSec;
      ReadSector(sec + SectorNumOfFAT1, OffsetOfReadSector, 2);
      var bx := OffsetOfReadSector + dx;
      var word := (mem[bx] as int) + 0x100 * (mem[bx + 1] as int);
      if bOdd == 1 {
        word := word / 16;
      }
      next := word % 0x1000;
    }

    /** keep_load_the_loader: the clusters of the chain stand one behind the other from LoaderBase on;
        apart from them and the transfer buffer memory is as before. */
    method KeepLoading(first: cluster, ghost table: seq<cluster>, ghost chain: seq<cluster>)
      requires Valid() && |table| <= 3072 && Chain(table, chain) && chain[0] == first && |chain| <= 56
      requires floppy[512 * SectorNumOfFAT1..512 * SectorNumOfFAT1 + |Pack(table)|] == Pack(table)
      requires forall i | 0 <= i < |chain| :: chain[i] + RealDataSectorNum < FLOPPY_SECTORS
      modifies this
      ensures Valid()
      ensures mem[0x9000..0x9000 + 512 * |chain|] == FileBytes(floppy, chain)
      ensures SameOutside(old(mem), mem, 512 * |chain|)
    {
      hide Put, FileBytes, SameOutside, Sectors;
      var ax: nat := first + RealDataSectorNum;
      var bx := LoaderBase;
      var pushed := first;
      ghost var i := 0;
      ghost var m := mem;
      NothingLoaded(m, floppy, chain);
      while true
        invariant Valid() && |mem| == |m| && 0 <= i < |chain| && bx == LoaderBase + 512 * i
        invariant pushed == chain[i] && ax == pushed + RealDataSectorNum
        invariant mem[LoaderBase..LoaderBase + 512 * i] == FileBytes(floppy, chain[..i])
        invariant SameOutside(m, mem, 512 * i)
        decreases |chain| - i
      {
        ghost var before := mem;
        ReadSector(ax, bx, 1);
        LoadedOneMore(m, before, floppy, chain, i);
        ghost var loaded := mem;
        assert Follows(table, chain, i);
        var next := GetNextSectorInFAT(pushed, table);
        BufferKeepsLoaded(m, loaded, mem, 512 * (i + 1));
        if next == 0xfff {
          NoLinkIsEnd(table, chain, i);
          assert chain[..i + 1] == chain;
          break;
        }
        pushed := next;
        ax := next + RealDataSectorNum;
        bx := bx + BPB_BytsPerSec;
        i := i + 1;
      }
    }

    /** The comparison of one directory entry with the loader's name, byte by byte from the entry's
        start; `di` stops at the first difference. */
    method CompareName(entry: nat) returns (found: bool, di: nat)
      requires Valid() && entry + 32 <= 0x10000
      ensures found <==> mem[entry..entry + 11] == LoaderFileName
      ensures entry <= di <= entry + 11
    {
      di := entry;
      var si, cx := 0, 0xb;
      while cx != 0
        invariant 0 <= cx <= 11 && si == 11 - cx && di == entry + si
        invariant forall k | 0 <= k < si :: mem[entry + k] == LoaderFileName[k]
      {
        cx := cx - 1;
        var al := LoaderFileName[si];
        si := si + 1;
        if mem[di] != al {
          SliceDiffers(mem, entry, LoaderFileName, si - 1);
          return false, di;
        }
        di := di + 1;
      }
      SliceEquals(mem, entry, LoaderFileName);
      return true, di;
    }

    /** search_loader_in_sector: the first of the sixteen entries in the buffer with the name. */
    method SearchSector(ghost i: nat) returns (found: bool, start: nat, ghost j: nat)
      requires Valid() && i < SectorNumOfRootDir
      requires mem[OffsetOfReadSector..OffsetOfReadSector + 512] == Sectors(floppy, RootDirFirstSectorNum + i, 1)
      ensures j <= 16 && (found <==> j < 16)
      ensures forall k | 16 * i <= k < 16 * i + j :: DirName(floppy, k) != LoaderFileName
      ensures found ==> DirName(floppy, 16 * i + j) == LoaderFileName && start == DirCluster(floppy, 16 * i + j)
    {
      hide DirName, DirCluster, Sectors;
      j := 0;
      var di := OffsetOfReadSector;
      var dx := 0x10;
      while dx != 0
        invariant 0 <= dx <= 16 && di == OffsetOfReadSector + 32 * j && j == 16 - dx
        invariant forall k | 16 * i <= k < 16 * i + j :: DirName(floppy, k) != LoaderFileName
      {
        dx := dx - 1;
        EntryInSector(floppy, mem, i, j);
        var same, at := CompareName(di);
        assert at - at % 0x20 == di;
        if same {
          di := at - at % 0x20 + 0x1a;
          start := (mem[di] as int) + 0x100 * (mem[di + 1] as int);
          found := true;
          return;
        }
        di := at - at % 0x20 + 0x20;
        j := j + 1;
      }
      return false, 0, j;
    }

    /** search_loader_in_root_dir: the first entry of the root directory with the loader's name, and
        the first cluster it records. */
    method SearchLoader() returns (found: bool, start: nat, ghost k: nat)
      requires Valid()
      modifies this
      ensures Valid() && |mem| == |old(mem)|
      ensures mem[..OffsetOfReadSector] == old(mem[..OffsetOfReadSector])
      ensures mem[OffsetOfReadSector + 512..] == old(mem[OffsetOfReadSector + 512..])
      ensures found <==> k < 16 * SectorNumOfRootDir
      ensures forall j | 0 <= j < k && j < 16 * SectorNumOfRootDir :: DirName(floppy, j) != LoaderFileName
      ensures found ==> DirName(floppy, k) == LoaderFileName && start == DirCluster(floppy, k)
    {
      hide DirName, DirCluster, Sectors, Put;
      var FLSectorNum := SectorNumOfRootDir;
      var FLNumOfSector := RootDirFirstSectorNum;
      k := 0;
      while FLSectorNum != 0
        invariant Valid() && |mem| == |old(mem)| && 0 <= FLSectorNum <= SectorNumOfRootDir
        invariant FLNumOfSector == RootDirFirstSectorNum + (SectorNumOfRootDir - FLSectorNum)
        invariant k == 16 * (SectorNumOfRootDir - FLSectorNum)
        invariant forall j | 0 <= j < k :: DirName(floppy, j) != LoaderFileName
        invariant mem[..OffsetOfReadSector] == old(mem[..OffsetOfReadSector])
        invariant mem[OffsetOfReadSector + 512..] == old(mem[OffsetOfReadSector + 512..])
      {
        FLSectorNum := FLSectorNum - 1;
        BufferOnly(mem, Sectors(floppy, FLNumOfSector, 1));
        ReadSector(FLNumOfSector, OffsetOfReadSector, 1);
        ghost var i, j := FLNumOfSector - RootDirFirstSectorNum, 0;
        found, start, j := SearchSector(i);
        k := 16 * i + j;
        if found {
          return;
        }
        FLNumOfSector := FLNumOfSector + 1;
      }
      return false, 0, k;
    }

    /** The boot sector as a whole: it loads the file that the first entry of that name describes, or
        stops with its message when there is none. */
    method BootFloppy(ghost table: seq<cluster>, ghost chain: seq<cluster>) returns (found: bool, ghost k: nat)
      requires Valid() && |table| <= 3072 && Chain(table, chain) && |chain| <= 56
      requires floppy[512 * SectorNumOfFAT1..512 * SectorNumOfFAT1 + |Pack(table)|] == Pack(table)
      requires forall i | 0 <= i < |chain| :: chain[i] + RealDataSectorNum < FLOPPY_SECTORS
      requires forall j: nat | LoaderEntry(floppy, j) :: DirCluster(floppy, j) == chain[0]
      modifies this
      ensures Valid()
      ensures found ==> LoaderEntry(floppy, k)
      ensures !found ==> forall j | 0 <= j < 16 * SectorNumOfRootDir :: DirName(floppy, j) != LoaderFileName
      ensures found ==> mem[0x9000..0x9000 + 512 * |chain|] == FileBytes(floppy, chain)
      ensures found ==> SameOutside(old(mem), mem, 512 * |chain|)
    {
      hide DirName, DirCluster, Put, FileBytes;
      var start;
      found, start, k := SearchLoader();
      if found {
        assert LoaderEntry(floppy, k);
        ghost var m := mem;
        KeepLoading(start, table, chain);
        OutsideTwice(old(mem), m, mem, 512 * |chain|);
      }
    }
  }

  // ----- Proof of the loop -----

  /** The sectors of the clusters, one behind the other. */
  function FileBytes(floppy: seq<byte>, chain: seq<cluster>): (r: seq<byte>)
    requires |floppy| == 512 * FLOPPY_SECTORS
    requires forall i | 0 <= i < |chain| :: chain[i] + RealDataSectorNum < FLOPPY_SECTORS
    ensures |r| == 512 * |chain|
  {
    if chain == [] then []
    else FileBytes(floppy, chain[..|chain| - 1]) + Sectors(floppy, chain[|chain| - 1] + RealDataSectorNum, 1)
  }

  /** Neither in the transfer buffer nor among the first n bytes from LoaderBase on. */
  predicate Untouched(a: int, n: nat) {
    !(0x7e00 <= a < 0x8200) && !(0x9000 <= a < 0x9000 + n)
  }

  /** Only the transfer buffer and the first n bytes from LoaderBase on may differ. */
  ghost predicate SameOutside(m: seq<byte>, m': seq<byte>, n: nat) {
    && |m'| == |m|
    && forall a | 0 <= a < |m| && Untouched(a, n) :: m'[a] == m[a]
  }

  lemma NothingLoaded(m: seq<byte>, floppy: seq<byte>, chain: seq<cluster>)
    requires |floppy| == 512 * FLOPPY_SECTORS && |m| >= 0x10000
    ensures m[LoaderBase..LoaderBase] == FileBytes(floppy, chain[..0]) && SameOutside(m, m, 0)
  {
  }

  lemma LoadedOneMore(m: seq<byte>, before: seq<byte>, floppy: seq<byte>, chain: seq<cluster>, i: nat)
    requires |floppy| == 512 * FLOPPY_SECTORS && i < |chain| <= 56 && |before| == |m| >= 0x10000
    requires forall j | 0 <= j < |chain| :: chain[j] + RealDataSectorNum < FLOPPY_SECTORS
    requires before[LoaderBase..LoaderBase + 512 * i] == FileBytes(floppy, chain[..i])
    requires SameOutside(m, before, 512 * i)
    ensures var after := Put(before, LoaderBase + 512 * i, Sectors(floppy, chain[i] + RealDataSectorNum, 1));
      && after[LoaderBase..LoaderBase + 512 * (i + 1)] == FileBytes(floppy, chain[..i + 1])
      && SameOutside(m, after, 512 * (i + 1))
  {
    hide Put, SameOutside, Sectors;
    var x := Sectors(floppy, chain[i] + RealDataSectorNum, 1);
    var after := Put(before, LoaderBase + 512 * i, x);
    PutElsewhere(before, LoaderBase + 512 * i, x, LoaderBase, LoaderBase + 512 * i);
    assert chain[..i + 1][..i] == chain[..i];
    SliceAppend(after, LoaderBase, LoaderBase + 512 * i, x);
    PutStaysOutside(m, before, i, x);
  }

  lemma PutStaysOutside(m: seq<byte>, before: seq<byte>, i: nat, x: seq<byte>)
    requires |before| == |m| && LoaderBase + 512 * (i + 1) <= |m| && |x| == 512 && SameOutside(m, before, 512 * i)
    ensures SameOutside(m, Put(before, LoaderBase + 512 * i, x), 512 * (i + 1))
  {
    var after := Put(before, LoaderBase + 512 * i, x);
    forall a | 0 <= a < |m| && Untouched(a, 512 * (i + 1))
      ensures after[a] == m[a]
    {
      PutAt(before, LoaderBase + 512 * i, x, a);
    }
  }

  /** Reading the table never touches what has been loaded. */
  lemma BufferKeepsLoaded(m: seq<byte>, before: seq<byte>, after: seq<byte>, n: nat)
    requires |before| == |m| >= 0x10000 && LoaderBase + n <= |m| && SameOutside(m, before, n)
    requires exists buf :: |buf| == 1024 && after == Put(before, OffsetOfReadSector, buf)
    ensures SameOutside(m, after, n) && after[LoaderBase..LoaderBase + n] == before[LoaderBase..LoaderBase + n]
  {
    var buf :| |buf| == 1024 && after == Put(before, OffsetOfReadSector, buf);
    PutElsewhere(before, OffsetOfReadSector, buf, LoaderBase, LoaderBase + n);
    forall a | 0 <= a < |m| && !(OffsetOfReadSector <= a < OffsetOfReadSector + 1024) ensures after[a] == before[a] {
      PutAt(before, OffsetOfReadSector, buf, a);
    }
  }

  lemma OutsideTwice(m: seq<byte>, m1: seq<byte>, m2: seq<byte>, n: nat)
    requires |m| >= 0x10000 && |m1| == |m| && SameOutside(m1, m2, n)
    requires m1[..OffsetOfReadSector] == m[..OffsetOfReadSector]
    requires m1[OffsetOfReadSector + 512..] == m[OffsetOfReadSector + 512..]
    ensures SameOutside(m, m2, n)
  {
    forall a | 0 <= a < |m| && Untouched(a, n) ensures m2[a] == m[a] {
      if a < OffsetOfReadSector {
        assert m1[..OffsetOfReadSector][a] == m[..OffsetOfReadSector][a];
      } else {
        var o := OffsetOfReadSector + 512;
        assert m1[o..][a - o] == m[o..][a - o];
      }
    }
  }

  lemma NoLinkIsEnd(table: seq<cluster>, chain: seq<cluster>, i: nat)
    requires Chain(table, chain) && |table| <= 3072 && i < |chain| && table[chain[i]] == 0xfff
    ensures i + 1 == |chain|
  {
    assert Follows(table, chain, i);
    assert forall j | 0 <= j < |chain| :: chain[j] != 0xfff;
  }

  // ----- Proof of the search -----

  /** The name and the first cluster in entry k of the root directory. */
  function DirName(floppy: seq<byte>, k: nat): seq<byte>
    requires |floppy| == 512 * FLOPPY_SECTORS && k < 16 * SectorNumOfRootDir
  {
    var o := 512 * RootDirFirstSectorNum + 32 * k;
    floppy[o..o + 11]
  }

  function DirCluster(floppy: seq<byte>, k: nat): nat
    requires |floppy| == 512 * FLOPPY_SECTORS && k < 16 * SectorNumOfRootDir
  {
    var o := 512 * RootDirFirstSectorNum + 32 * k + 0x1a;
    (floppy[o] as int) + 0x100 * (floppy[o + 1] as int)
  }

  /** A directory entry as in the section "FAT Directory Structure" of Microsoft's FAT32 File System
      Specification, version 1.03: 11 bytes of name, 15 of attributes and times, the first cluster's low
      word, the file's size. */
  lemma DirEntryFields(floppy: seq<byte>, k: nat, name: seq<byte>, attributes: seq<byte>, low: byte, high: byte,
                       size: seq<byte>)
    requires |floppy| == 512 * FLOPPY_SECTORS && k < 16 * SectorNumOfRootDir
    requires |name| == 11 && |attributes| == 15 && |size| == 4
    requires floppy[512 * 19 + 32 * k..512 * 19 + 32 * k + 32] == name + attributes + [low, high] + size
    ensures DirName(floppy, k) == name && DirCluster(floppy, k) == low + 0x100 * (high as int)
  {
    var o := 512 * 19 + 32 * k;
    var e := name + attributes + [low, high] + size;
    SliceOfSlice(floppy, o, o + 32, 0, 11);
    assert e[0..11] == name;
    assert floppy[o + 26] == e[26] == low && floppy[o + 27] == e[27] == high;
  }

  /** The first entry with the loader's name. */
  predicate LoaderEntry(floppy: seq<byte>, j: nat)
    requires |floppy| == 512 * FLOPPY_SECTORS
  {
    && j < 16 * SectorNumOfRootDir && DirName(floppy, j) == LoaderFileName
    && forall i | 0 <= i < j :: DirName(floppy, i) != LoaderFileName
  }

  lemma BufferOnly(before: seq<byte>, x: seq<byte>)
    requires |before| >= 0x10000 && |x| == 512
    ensures var after := Put(before, OffsetOfReadSector, x);
      && after[..OffsetOfReadSector] == before[..OffsetOfReadSector]
      && after[OffsetOfReadSector + 512..] == before[OffsetOfReadSector + 512..]
      && after[OffsetOfReadSector..OffsetOfReadSector + 512] == x
  {
  }

  lemma EntryInSector(floppy: seq<byte>, mem: seq<byte>, i: nat, j: nat)
    requires |floppy| == 512 * FLOPPY_SECTORS && i < SectorNumOfRootDir && j < 16 && |mem| >= 0x10000
    requires mem[OffsetOfReadSector..OffsetOfReadSector + 512] == Sectors(floppy, RootDirFirstSectorNum + i, 1)
    ensures var o := OffsetOfReadSector + 32 * j;
      && mem[o..o + 11] == DirName(floppy, 16 * i + j)
      && (mem[o + 0x1a] as int) + 0x100 * (mem[o + 0x1b] as int) == DirCluster(floppy, 16 * i + j)
  {
    var b, f := OffsetOfReadSector, 512 * (RootDirFirstSectorNum + i);
    SliceOfSlice(mem, b, b + 512, 32 * j, 32 * j + 11);
    SliceOfSlice(floppy, f, f + 512, 32 * j, 32 * j + 11);
    SliceOfSlice(mem, b, b + 512, 32 * j + 0x1a, 32 * j + 0x1c);
    SliceOfSlice(floppy, f, f + 512, 32 * j + 0x1a, 32 * j + 0x1c);
    var m, n := mem[b + (32 * j + 0x1a)..b + (32 * j + 0x1c)], floppy[f + (32 * j + 0x1a)..f + (32 * j + 0x1c)];
    assert m == n && m[0] == n[0] && m[1] == n[1];
  }

  /** What the two bytes at the entry's place in the buffer make. */
  lemma EntryRead(m: seq<byte>, floppy: seq<byte>, table: seq<cluster>, n: nat)
    requires |m| >= 0x10000 && |floppy| == 512 * FLOPPY_SECTORS && |table| <= 3072 && n < |table|
    requires floppy[512 * SectorNumOfFAT1..512 * SectorNumOfFAT1 + |Pack(table)|] == Pack(table)
    ensures var off := n * 3 / 2;
      var sec, dx := off / BPB_BytsPerSec, off % BPB_BytsPerSec;
      && sec + SectorNumOfFAT1 + 2 <= BPB_SecPerTrk
      && var m' := Put(m, OffsetOfReadSector, Sectors(floppy, sec + SectorNumOfFAT1, 2));
      && var word := (m'[OffsetOfReadSector + dx] as int) + 0x100 * (m'[OffsetOfReadSector + dx + 1] as int);
      && table[n] == (if n * 3 % 2 == 1 then word / 16 else word) % 0x1000
  {
    hide Put, Sectors, Pack;
    LookupPacked(table, n);
    EntryInBuffer(floppy, Pack(table), n);
    var off := n * 3 / 2;
    var sec, dx := off / BPB_BytsPerSec, off % BPB_BytsPerSec;
    var buf := Sectors(floppy, sec + SectorNumOfFAT1, 2);
    PutAt(m, OffsetOfReadSector, buf, OffsetOfReadSector + dx);
    PutAt(m, OffsetOfReadSector, buf, OffsetOfReadSector + dx + 1);
  }

  /** The two sectors read for a table entry hold both its bytes and lie in the first track, also
      when the entry straddles them. */
  lemma EntryInBuffer(floppy: seq<byte>, fat: seq<byte>, n: nat)
    requires |floppy| == 512 * FLOPPY_SECTORS && |fat| <= 512 * 9 && 3 * n / 2 + 1 < |fat|
    requires floppy[512 * SectorNumOfFAT1..512 * SectorNumOfFAT1 + |fat|] == fat
    ensures var off := n * 3 / 2;
      var sec, dx := off / BPB_BytsPerSec, off % BPB_BytsPerSec;
      && sec + SectorNumOfFAT1 + 2 <= BPB_SecPerTrk
      && Sectors(floppy, sec + SectorNumOfFAT1, 2)[dx] == fat[off]
      && Sectors(floppy, sec + SectorNumOfFAT1, 2)[dx + 1] == fat[off + 1]
      && off == 3 * n / 2 && n * 3 % 2 == n % 2
  {
    var off := n * 3 / 2;
    var sec, dx := off / BPB_BytsPerSec, off % BPB_BytsPerSec;
    assert 512 * (sec + 1) + dx == 512 + off;
    var part := floppy[512 * SectorNumOfFAT1..512 * SectorNumOfFAT1 + |fat|];
    assert part[off] == floppy[512 + off] && part[off + 1] == floppy[512 + off + 1];
  }
}
