/** Mounting and loading (boot/fs.c: get_root_area, get_inode_array, find_file_in_root,
    loader_kernel; lib/string.c: strcmp). */
module Loader {
  import opened Bytes
  import opened HardDisk
  import opened FinuxFs

  const ROOT_AREA_SIZE := 1600  // MAX_INODE_CNT entries of 16 bytes
  const KERNEL_LOAD_ADDRESS := 0x20_0000
  const KERNEL_INFO_ADDRESS := 0x10_0000

  /** "vmFinux.core" and the terminating zero byte. */
  const KERNEL_NAME: seq<byte> := [118, 109, 70, 105, 110, 117, 120, 46, 99, 111, 114, 101]

  lemma KernelNameIs()
    ensures |KERNEL_NAME| == 12 && forall i | 0 <= i < 12 :: KERNEL_NAME[i] == "vmFinux.core"[i] as int
  {
  }

  // ----- strcmp -----

  /** The bytes before position k agree and the ones at k do not. */
  predicate DifferAt(name: seq<byte>, mem: seq<byte>, at: nat, k: nat) {
    && k < |name| && at + k < |mem| && name[k] != mem[at + k]
    && forall j | 0 <= j < k :: at + j < |mem| && name[j] == mem[at + j]
  }

  /** The string `name` is what stands at `at`, with a zero byte behind it. */
  predicate NameAt(mem: seq<byte>, at: nat, name: seq<byte>) {
    at + |name| < |mem| && mem[at..at + |name|] == name && mem[at + |name|] == 0
  }

  /** strcmp calls the strings equal: they are, or they first differ before equal characters. */
  ghost predicate ComparesEqual(name: seq<byte>, mem: seq<byte>, at: nat)
    requires at + |name| < |mem|
  {
    NameAt(mem, at, name) || exists k: nat :: DifferAt(name, mem, at, k) && (name + [0])[k + 1] == mem[at + k + 1]
  }

  /** strcmp of a non-empty string, given without its terminating zero, and the bytes of `mem` from
      `at` on, as written: both pointers have moved on when the loop ends, so it is the characters
      after the first difference that are compared. */
  method StrCmp(name: seq<byte>, mem: seq<byte>, at: nat) returns (r: int)
    requires name != [] && 0 !in name && at + |name| < |mem|
    ensures r == 0 <==> ComparesEqual(name, mem, at)
  {
    var str1 := name + [0];
    var i := 0;
    while str1[i] == mem[at + i]
      invariant 0 <= i < |name| && forall j | 0 <= j < i :: name[j] == mem[at + j]
      decreases |name| - i
    {
      i := i + 1;
      if str1[i] == 0 {
        assert i == |name|;
        assert mem[at..at + |name|] == name;
        return str1[i] as int - mem[at + i] as int;
      }
    }
    assert DifferAt(name, mem, at, i);
    assert mem[at..at + |name|][i] != name[i];
    assert forall k: nat | DifferAt(name, mem, at, k) :: k == i;
    return str1[i + 1] as int - mem[at + i + 1] as int;
  }

  /** "vmFinux.cXre" with its terminating zero byte. */
  const OTHER_NAME: seq<byte> := [118, 109, 70, 105, 110, 117, 120, 46, 99, 88, 114, 101, 0]

  /** A different name that strcmp takes for the kernel's: they differ in one character, and the next
      ones are equal. */
  lemma OtherNameComparesEqual()
    ensures ComparesEqual(KERNEL_NAME, OTHER_NAME, 0) && !NameAt(OTHER_NAME, 0, KERNEL_NAME)
  {
    assert DifferAt(KERNEL_NAME, OTHER_NAME, 0, 9);
    assert (KERNEL_NAME + [0])[10] == OTHER_NAME[10];
    assert OTHER_NAME[0..12][9] == 88;
  }

  // ----- Mounting -----

  /** get_root_area copies root_sectors - 3 sectors into the array of directory entries. */
  method GetRootArea(hd: Disk, super_block: SuperBlock, root: seq<byte>) returns (root_area: seq<byte>)
    requires 3 <= super_block.root_sectors <= 6 && |root| == ROOT_AREA_SIZE
    requires SECTOR_SIZE * (super_block.root_start + super_block.root_sectors - 3) <= |hd.bytes|
    ensures var n, o := SECTOR_SIZE * (super_block.root_sectors - 3), SECTOR_SIZE * super_block.root_start;
      root_area == hd.bytes[o..o + n] + root[n..]
  {
    root_area := root;
    ghost var o := SECTOR_SIZE * super_block.root_start;
    for i := 0 to super_block.root_sectors - 3
      invariant |root_area| == ROOT_AREA_SIZE
      invariant root_area == hd.bytes[o..o + SECTOR_SIZE * i] + root[SECTOR_SIZE * i..]
    {
      var tmp_buf := hd.Read(super_block.root_start + i);
      assert hd.bytes[o..o + SECTOR_SIZE * (i + 1)] == hd.bytes[o..o + SECTOR_SIZE * i] + tmp_buf;
      root_area := Put(root_area, SECTOR_SIZE * i, tmp_buf);
    }
  }

  /** get_inode_array, as far as the array reaches: the fourth sector holds more inodes than fit. */
  method GetInodeArray(hd: Disk, super_block: SuperBlock) returns (inode_array: seq<Inode>)
    requires super_block.inode_sectors == MAX_INODE_SECTORS
    requires SECTOR_SIZE * (super_block.inode_array_start + MAX_INODE_SECTORS) <= |hd.bytes|
    ensures |inode_array| == MAX_INODE_CNT
    ensures forall k | 0 <= k < MAX_INODE_CNT ::
              inode_array[k] == InodeAt(hd.bytes, SECTOR_SIZE * super_block.inode_array_start + 16 * k)
  {
    inode_array := [];
    ghost var o := SECTOR_SIZE * super_block.inode_array_start;
    for i := 0 to super_block.inode_sectors
      invariant |inode_array| == if 32 * i < MAX_INODE_CNT then 32 * i else MAX_INODE_CNT
      invariant forall k | 0 <= k < |inode_array| :: inode_array[k] == InodeAt(hd.bytes, o + 16 * k)
    {
      var tmp_buf := hd.Read(super_block.inode_array_start + i);
      var j := 0;
      while j < 32 && 32 * i + j < MAX_INODE_CNT
        invariant 0 <= j <= 32 && |inode_array| == if 32 * i + j < MAX_INODE_CNT then 32 * i + j else MAX_INODE_CNT
        invariant forall k | 0 <= k < |inode_array| :: inode_array[k] == InodeAt(hd.bytes, o + 16 * k)
      {
        SliceOfSlice(hd.bytes, o + SECTOR_SIZE * i, o + SECTOR_SIZE * i + SECTOR_SIZE, 16 * j, 16 * j + 16);
        assert InodeAt(tmp_buf, 16 * j) == InodeAt(hd.bytes, o + 16 * (32 * i + j));
        inode_array := inode_array + [InodeAt(tmp_buf, 16 * j)];
        j := j + 1;
      }
    }
  }

  // ----- Loading -----

  /** The first directory entry whose name strcmp calls equal; `mem` is the array and at least the
      byte behind it, which a comparison with the last entry may reach. */
  ghost predicate FirstMatch(mem: seq<byte>, name: seq<byte>, i: nat)
    requires |mem| > ROOT_AREA_SIZE && |name| == 12
  {
    && i < MAX_INODE_CNT && ComparesEqual(name, mem, 16 * i + 4)
    && forall j | 0 <= j < i :: !ComparesEqual(name, mem, 16 * j + 4)
  }

  /** find_file_in_root; MAX_INODE_CNT stands for the null pointer. */
  method FindFileInRoot(mem: seq<byte>, filename: seq<byte>) returns (r: nat)
    requires |mem| > ROOT_AREA_SIZE && |filename| == 12 && 0 !in filename
    ensures r < MAX_INODE_CNT ==> FirstMatch(mem, filename, r)
    ensures r == MAX_INODE_CNT <==> forall i | 0 <= i < MAX_INODE_CNT :: !ComparesEqual(filename, mem, 16 * i + 4)
    ensures r <= MAX_INODE_CNT
  {
    for i := 0 to MAX_INODE_CNT
      invariant forall j | 0 <= j < i :: !ComparesEqual(filename, mem, 16 * j + 4)
    {
      var c := StrCmp(filename, mem, 16 * i + 4);
      if c == 0 {
        return i;
      }
    }
    return MAX_INODE_CNT;
  }

  class Memory {
    var bytes: seq<byte>

    constructor (bytes: seq<byte>)
      ensures this.bytes == bytes
    {
      this.bytes := bytes;
    }

    /** memcpy to a physical address */
    method CopyTo(address: nat, data: seq<byte>)
      requires address + |data| <= |bytes|
      modifies this
      ensures bytes == Put(old(bytes), address, data)
    {
      bytes := Put(bytes, address, data);
    }
  }

  /** The sectors start .. start+n-1. */
  function Sectors(d: seq<byte>, start: nat, n: nat): (r: seq<byte>)
    requires SECTOR_SIZE * (start + n) <= |d|
    ensures |r| == SECTOR_SIZE * n
  {
    d[SECTOR_SIZE * start..SECTOR_SIZE * (start + n)]
  }

  lemma OneMoreSector(d: seq<byte>, start: nat, n: nat)
    requires SECTOR_SIZE * (start + n + 1) <= |d|
    ensures Sectors(d, start, n) + Sector(d, start + n) == Sectors(d, start, n + 1)
  {
  }

  function KernelInfo(size: word, detected: word): seq<byte> {
    Encode([size, KERNEL_LOAD_ADDRESS, detected])
  }

  /** The inode a directory entry refers to. */
  function EntryInode(mem: seq<byte>, i: nat): word
    requires |mem| > ROOT_AREA_SIZE && i < MAX_INODE_CNT
  {
    DecodeWord(mem[16 * i..16 * i + 4])
  }

  predicate Loadable(d: seq<byte>, ino: Inode, memSize: nat) {
    && SECTOR_SIZE * (ino.file_start_sect + ino.file_sector_cnt) <= |d|
    && KERNEL_LOAD_ADDRESS + SECTOR_SIZE * ino.file_sector_cnt <= memSize
  }

  /** Memory with a file's sectors at the load address and the information the kernel reads. */
  function WithKernel(m: seq<byte>, d: seq<byte>, ino: Inode, detected: word): seq<byte>
    requires Loadable(d, ino, |m|)
  {
    Put(Put(m, KERNEL_LOAD_ADDRESS, Sectors(d, ino.file_start_sect, ino.file_sector_cnt)),
        KERNEL_INFO_ADDRESS, KernelInfo(ino.file_size, detected))
  }

  /** loader_kernel's loop: a file's sectors go to the load address one after the other. */
  method LoadSectors(hd: Disk, ino: Inode, mem: Memory)
    requires Loadable(hd.bytes, ino, |mem.bytes|)
    modifies mem
    ensures mem.bytes == Put(old(mem.bytes), KERNEL_LOAD_ADDRESS,
          Sectors(hd.bytes, ino.file_start_sect, ino.file_sector_cnt))
  {
    hide Put;
    var start := ino.file_start_sect;
    PutNothing(mem.bytes, KERNEL_LOAD_ADDRESS);
    assert Sectors(hd.bytes, start, 0) == [];
    for i := 0 to ino.file_sector_cnt
      invariant |mem.bytes| == |old(mem.bytes)|
      invariant mem.bytes == Put(old(mem.bytes), KERNEL_LOAD_ADDRESS, Sectors(hd.bytes, start, i))
    {
      var tmp_buf := hd.Read(start + i);
      PutPut(old(mem.bytes), KERNEL_LOAD_ADDRESS, Sectors(hd.bytes, start, i), tmp_buf);
      OneMoreSector(hd.bytes, start, i);
      mem.CopyTo(KERNEL_LOAD_ADDRESS + i * SECTOR_SIZE, tmp_buf);
    }
  }

  /** loader_kernel: the kernel is the first entry of its name; false stands for PANIC. */
  method LoaderKernel(hd: Disk, root: seq<byte>, inode_array: seq<Inode>, mem: Memory, DetectCount: word)
    returns (found: bool, ghost entry: nat)
    requires |root| > ROOT_AREA_SIZE && |mem.bytes| >= KERNEL_LOAD_ADDRESS
    requires forall i | 0 <= i < MAX_INODE_CNT && FirstMatch(root, KERNEL_NAME, i) ::
               EntryInode(root, i) < |inode_array| && Loadable(hd.bytes, inode_array[EntryInode(root, i)], |mem.bytes|)
    modifies mem
    ensures found <==> entry < MAX_INODE_CNT
    ensures found ==> FirstMatch(root, KERNEL_NAME, entry) && EntryInode(root, entry) < |inode_array|
    ensures found ==> Loadable(hd.bytes, inode_array[EntryInode(root, entry)], |old(mem.bytes)|)
    ensures found ==> mem.bytes == WithKernel(old(mem.bytes), hd.bytes, inode_array[EntryInode(root, entry)],
          DetectCount)
    ensures !found ==> mem.bytes == old(mem.bytes)
    ensures !found ==> forall i | 0 <= i < MAX_INODE_CNT :: !ComparesEqual(KERNEL_NAME, root, 16 * i + 4)
  {
    var kernel_entry := FindFileInRoot(root, KERNEL_NAME);
    if kernel_entry == MAX_INODE_CNT {
      return false, kernel_entry;
    }
    var kernel_inode := inode_array[EntryInode(root, kernel_entry)];
    LoadSectors(hd, kernel_inode, mem);
    mem.CopyTo(KERNEL_INFO_ADDRESS, KernelInfo(kernel_inode.file_size, DetectCount));
    return true, kernel_entry;
  }
}
