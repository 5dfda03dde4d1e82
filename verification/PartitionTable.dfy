/** Partition tables and the search for the Finux partition (boot/fs.c: get_part_information and
    make_fs up to its base computation). */
module PartitionTable {
  import opened Common
  import opened Bytes
  import opened HardDisk

  const PART_TABLE_OFFSET := 0x1be
  const PART_TABLE_END := 0x200
  const PRIMARY_MAX_CNT := 4
  const PART_EMPTY := 0
  const PART_EXTENDED := 5
  const FINUX_SYSID := 0xd

  /** The fields of struct part_table that are ever read. */
  datatype Part = Part(kind: byte, first: word, cnt: word)

  function PartAt(sector: seq<byte>, off: nat): Part
    requires off + 16 <= |sector|
  {
    Part(sector[off + 4], DecodeWord(sector[off + 8..off + 12]), DecodeWord(sector[off + 12..off + 16]))
  }

  /** Entry i of the four in a partition sector. */
  function Entry(sector: seq<byte>, i: nat): Part
    requires |sector| == SECTOR_SIZE && i < 4
  {
    PartAt(sector, PART_TABLE_OFFSET + 16 * i)
  }

  /** Where the fields stand in a partition sector, the words with the low byte first. */
  lemma EntryFields(sector: seq<byte>, i: nat)
    requires |sector| == 512 && i < 4
    ensures var o := 446 + 16 * i;
      && Entry(sector, i).kind == sector[o + 4]
      && Entry(sector, i).first == DecodeWord([sector[o + 8], sector[o + 9], sector[o + 10], sector[o + 11]])
      && Entry(sector, i).cnt == DecodeWord([sector[o + 12], sector[o + 13], sector[o + 14], sector[o + 15]])
  {
    hide DecodeWord;
    var o := 446 + 16 * i;
    assert sector[o + 8..o + 12] == [sector[o + 8], sector[o + 9], sector[o + 10], sector[o + 11]];
    assert sector[o + 12..o + 16] == [sector[o + 12], sector[o + 13], sector[o + 14], sector[o + 15]];
  }

  // ----- What is on the disk -----

  /** How many entries come before the first empty one. */
  function UsedEntries(sector: seq<byte>, i: nat): (u: nat)
    requires |sector| == SECTOR_SIZE && i <= 4
    ensures i <= u <= 4 && forall j | i <= j < u :: Entry(sector, j).kind != PART_EMPTY
    ensures u < 4 ==> Entry(sector, u).kind == PART_EMPTY
    decreases 4 - i
  {
    if i == 4 || Entry(sector, i).kind == PART_EMPTY then i else UsedEntries(sector, i + 1)
  }

  /** The extended partitions among the first i entries. */
  function Extended(sector: seq<byte>, i: nat): (r: seq<Part>)
    requires |sector| == SECTOR_SIZE && i <= 4
    ensures |r| <= i && forall k | 0 <= k < |r| :: r[k].kind == PART_EXTENDED
  {
    if i == 0 then []
    else Extended(sector, i - 1) + if Entry(sector, i - 1).kind == PART_EXTENDED then [Entry(sector, i - 1)] else []
  }

  /** The master boot record: `used` entries before the first empty one, and among them entry x the
      only extended one, starting at e. */
  ghost predicate IsMbr(sector: seq<byte>, used: nat, x: nat, e: nat) {
    && |sector| == SECTOR_SIZE && used == UsedEntries(sector, 0) && x < used
    && (forall i | 0 <= i < used :: Entry(sector, i).kind == PART_EXTENDED <==> i == x)
    && Entry(sector, x).first == e
  }

  /** A logical partition and where, relative to the extended partition, its own table stands. */
  datatype Logical = Logical(table: nat, part: Part)

  /** The table at sector e + table of link i describes the i-th logical partition and, if there is
      another one, links to its table by an entry of type 5. */
  ghost predicate LinkOnDisk(d: seq<byte>, e: nat, chain: seq<Logical>, i: nat)
    requires i < |chain|
  {
    && SECTOR_SIZE * (e + chain[i].table + 1) <= |d|
    && var s := Sector(d, e + chain[i].table);
    && Entry(s, 0) == chain[i].part && Entry(s, 0).kind != PART_EMPTY && Entry(s, 0).kind != PART_EXTENDED
    && if i + 1 < |chain| then
         Entry(s, 1).kind == PART_EXTENDED && Entry(s, 1).first == chain[i + 1].table
       else
         Entry(s, 1).kind == PART_EMPTY
  }

  ghost predicate ChainOnDisk(d: seq<byte>, e: nat, chain: seq<Logical>) {
    && |chain| > 0 && chain[0].table == 0
    && forall i | 0 <= i < |chain| :: LinkOnDisk(d, e, chain, i)
  }

  /** The sector at which the i-th logical partition starts, counted from the start of the disk. */
  function AbsoluteStart(e: nat, chain: seq<Logical>, i: nat): nat
    requires i < |chain|
  {
    e + chain[i].table + chain[i].part.first
  }

  // ----- What the loader makes of it -----

  /** The entry in `logical` that led to link i. */
  ghost predicate LinkAt(logical: seq<Part>, e: nat, chain: seq<Logical>, i: nat)
    requires i < |chain| && 2 * i < |logical|
  {
    logical[2 * i].kind == PART_EXTENDED && logical[2 * i].first == if i == 0 then e else chain[i].table
  }

  ghost predicate PartitionAt(logical: seq<Part>, chain: seq<Logical>, i: nat)
    requires i < |chain| && 2 * i + 1 < |logical|
  {
    logical[2 * i + 1] == chain[i].part
  }

  /** The array `logical` after the walk: the extended partition, then for every link its partition
      and the entry leading to the next link. */
  ghost predicate Collected(logical: seq<Part>, e: nat, chain: seq<Logical>, n: nat)
    requires n <= |chain|
  {
    2 * n <= |logical| && forall i | 0 <= i < n :: LinkAt(logical, e, chain, i) && PartitionAt(logical, chain, i)
  }

  /** OutOfDisk: a table is looked for behind the end of the disk.  OutOfArray: there are more entries
      than the array holds.  PastBuffer: all four entries of the master boot record are in use, and what
      lies behind the buffer counts as a fifth. */
  datatype Walk = Walked(logical: seq<Part>) | OutOfDisk | OutOfArray | PastBuffer

  /** The walk over the tables from the one at sector lba on, with `l` already in the array.  A link
      counts from the start of the array's first entry. */
  function Follow(d: seq<byte>, l: seq<Part>, lba: nat, capacity: nat): Walk
    decreases capacity - |l|
  {
    if SECTOR_SIZE * (lba + 1) > |d| then OutOfDisk
    else
      var s := Sector(d, lba);
      if Entry(s, 0).kind == PART_EMPTY then Walked(l)
      else if |l| >= capacity then OutOfArray
      else
        var l1 := l + [Entry(s, 0)];
        if Entry(s, 1).kind == PART_EMPTY then Walked(l1)
        else if |l1| >= capacity then OutOfArray
        else
          var l2 := l1 + [Entry(s, 1)];
          Follow(d, l2, (Entry(s, 1).first + l2[0].first) % U32, capacity)
  }

  /** What get_part_information collects from a disk; without an extended partition the walk starts
      where the array's first entry, not yet written, points. */
  function LogicalOf(d: seq<byte>, unwritten: word, capacity: nat): Walk
    requires |d| >= SECTOR_SIZE
  {
    var mbr := Sector(d, 0);
    var ext := Extended(mbr, UsedEntries(mbr, 0));
    Follow(d, ext, if ext == [] then unwritten else ext[0].first, capacity)
  }

  predicate HoldsList(a: seq<Part>, l: seq<Part>, was: seq<Part>) {
    && |l| <= |a| == |was|
    && forall j | 0 <= j < |a| :: a[j] == if j < |l| then l[j] else was[j]
  }

  /** get_part_information, for any disk and whatever the arrays hold.  `behind` is the byte where the
      kind of a fifth entry would be, behind the buffer. */
  method GetPartInformation(hd: Disk, primary: array<Part>, logical: array<Part>, behind: byte) returns (r: Walk)
    requires primary != logical && primary.Length == PRIMARY_MAX_CNT < logical.Length && |hd.bytes| >= SECTOR_SIZE
    modifies primary, logical
    ensures var mbr := Sector(hd.bytes, 0);
      && r == (if UsedEntries(mbr, 0) == 4 && behind != PART_EMPTY then PastBuffer
               else LogicalOf(hd.bytes, old(logical[0].first), logical.Length))
      && forall j | 0 <= j < PRIMARY_MAX_CNT ::
           primary[j] == if j < UsedEntries(mbr, 0) then Entry(mbr, j) else old(primary[j])
    ensures r.Walked? ==> HoldsList(logical[..], r.logical, old(logical[..]))
  {
    hide Entry, Follow;
    var buf := hd.Read(0);
    ghost var was := logical[..];
    var tab_local := PART_TABLE_OFFSET;
    var prim, logic := 0, 0;
    // The test of a fifth entry comes after the loop.
    while prim < 4 && Entry(buf, prim).kind != PART_EMPTY && tab_local < PART_TABLE_END
      invariant 0 <= prim <= 4 && tab_local == PART_TABLE_OFFSET + 16 * prim
      invariant UsedEntries(buf, 0) == UsedEntries(buf, prim)
      invariant logic == |Extended(buf, prim)| && HoldsList(logical[..], Extended(buf, prim), was)
      invariant forall j | 0 <= j < PRIMARY_MAX_CNT :: primary[j] == if j < prim then Entry(buf, j) else old(primary[j])
    {
      var table := Entry(buf, prim);
      if table.kind == PART_EXTENDED {
        logical[logic] := table;
        logic := logic + 1;
      }
      primary[prim] := table;
      prim := prim + 1;
      tab_local := tab_local + 16;
    }
    if prim == 4 && behind != PART_EMPTY {
      return PastBuffer;
    }
    r := WalkExtended(hd, logical, logic, Extended(buf, prim), was);
  }

  /** The second loop of get_part_information, over the tables of the extended partition. */
  method WalkExtended(hd: Disk, logical: array<Part>, first: nat, ghost ext: seq<Part>, ghost was: seq<Part>)
    returns (r: Walk)
    requires first == |ext| && HoldsList(logical[..], ext, was) && logical.Length > 0
    modifies logical
    ensures r == Follow(hd.bytes, ext, old(logical[0].first), logical.Length)
    ensures r.Walked? ==> HoldsList(logical[..], r.logical, was)
  {
    hide Entry;
    var logic, lba: nat := first, logical[0].first;
    ghost var l := ext;
    while true
      invariant logic == |l| <= logical.Length && HoldsList(logical[..], l, was)
      invariant Follow(hd.bytes, l, lba, logical.Length) == Follow(hd.bytes, ext, old(logical[0].first), logical.Length)
      decreases logical.Length - logic
    {
      if SECTOR_SIZE * (lba + 1) > |hd.bytes| {
        return OutOfDisk;
      }
      var buf := hd.Read(lba);
      if Entry(buf, 0).kind == PART_EMPTY {
        assert logical[..logic] == l;
        return Walked(logical[..logic]);
      }
      if logic >= logical.Length {
        return OutOfArray;
      }
      logical[logic] := Entry(buf, 0);
      l := l + [Entry(buf, 0)];
      logic := logic + 1;
      var table := Entry(buf, 1);
      if table.kind == PART_EMPTY {
        assert logical[..logic] == l;
        return Walked(logical[..logic]);
      }
      if logic >= logical.Length {
        return OutOfArray;
      }
      logical[logic] := table;
      l := l + [table];
      logic := logic + 1;
      lba := (table.first + logical[0].first) % U32;
    }
  }

  // ----- Chains -----

  lemma FollowStep(d: seq<byte>, l: seq<Part>, lba: nat, capacity: nat)
    requires SECTOR_SIZE * (lba + 1) <= |d| && |l| < capacity && Entry(Sector(d, lba), 0).kind != PART_EMPTY
    requires Entry(Sector(d, lba), 1).kind != PART_EMPTY ==> |l| + 2 <= capacity
    ensures var s := Sector(d, lba); var l1 := l + [Entry(s, 0)];
      Follow(d, l, lba, capacity) ==
        if Entry(s, 1).kind == PART_EMPTY then Walked(l1)
        else Follow(d, l1 + [Entry(s, 1)], (Entry(s, 1).first + l1[0].first) % U32, capacity)
  {
    hide Entry;
  }

  /** Walking a chain from link i on. */
  lemma {:induction false} FollowChain(d: seq<byte>, e: word, chain: seq<Logical>, i: nat, l: seq<Part>, capacity: nat)
    requires ChainOnDisk(d, e, chain) && |d| <= SECTOR_SIZE * U32 && i < |chain| && 2 * |chain| <= capacity
    requires |l| == 2 * i + 1 && Collected(l, e, chain, i) && LinkAt(l, e, chain, i) && l[0].first == e
    ensures Follow(d, l, e + chain[i].table, capacity).Walked?
    ensures var r := Follow(d, l, e + chain[i].table, capacity).logical;
      |r| == 2 * |chain| && Collected(r, e, chain, |chain|)
    decreases |chain| - i
  {
    hide Follow, Entry;
    assert LinkOnDisk(d, e, chain, i);
    FollowStep(d, l, e + chain[i].table, capacity);
    var s := Sector(d, e + chain[i].table);
    var l1 := l + [Entry(s, 0)];
    forall j | 0 <= j < i + 1 ensures LinkAt(l1, e, chain, j) && PartitionAt(l1, chain, j) {
      assert j < i ==> LinkAt(l, e, chain, j) && PartitionAt(l, chain, j);
    }
    if i + 1 < |chain| {
      var l2 := l1 + [Entry(s, 1)];
      forall j | 0 <= j < i + 1 ensures LinkAt(l2, e, chain, j) && PartitionAt(l2, chain, j) {
        assert LinkAt(l1, e, chain, j) && PartitionAt(l1, chain, j);
      }
      assert LinkOnDisk(d, e, chain, i + 1);
      FollowChain(d, e, chain, i + 1, l2, capacity);
    }
  }

  lemma {:induction false} OneExtended(sector: seq<byte>, x: nat, i: nat)
    requires |sector| == SECTOR_SIZE && i <= 4
    requires forall j | 0 <= j < i :: Entry(sector, j).kind == PART_EXTENDED <==> j == x
    ensures Extended(sector, i) == if x < i then [Entry(sector, x)] else []
    decreases i
  {
    hide Entry;
    if i > 0 {
      OneExtended(sector, x, i - 1);
    }
  }

  /** The array `logical` after the walk over any extended chain that fits it. */
  lemma ChainIsCollected(d: seq<byte>, used: nat, x: nat, e: word, chain: seq<Logical>, unwritten: word, capacity: nat)
    requires SECTOR_SIZE <= |d| <= SECTOR_SIZE * U32 && IsMbr(Sector(d, 0), used, x, e) && ChainOnDisk(d, e, chain)
    requires 2 * |chain| <= capacity
    ensures LogicalOf(d, unwritten, capacity).Walked?
    ensures var r := LogicalOf(d, unwritten, capacity).logical;
      |r| == 2 * |chain| && Collected(r, e, chain, |chain|)
  {
    hide Follow, Entry;
    OneExtended(Sector(d, 0), x, used);
    FollowChain(d, e, chain, 0, [Entry(Sector(d, 0), x)], capacity);
  }

  // ----- The first entry of the array -----

  lemma {:induction false} FollowKeeps(d: seq<byte>, l: seq<Part>, lba: nat, capacity: nat)
    ensures Follow(d, l, lba, capacity).Walked? ==> l <= Follow(d, l, lba, capacity).logical
    decreases capacity - |l|
  {
    hide Entry;
    if SECTOR_SIZE * (lba + 1) <= |d| && |l| + 2 <= capacity {
      var s := Sector(d, lba);
      var l2 := l + [Entry(s, 0)] + [Entry(s, 1)];
      FollowKeeps(d, l2, (Entry(s, 1).first + l2[0].first) % U32, capacity);
    }
  }

  /** The entry whose start make_fs adds to every partition: the first extended one, or, without any,
      the first of all, since the walk then takes the master boot record for the first table. */
  function FirstLogical(mbr: seq<byte>): Part
    requires |mbr| == SECTOR_SIZE
  {
    var ext := Extended(mbr, UsedEntries(mbr, 0));
    if ext == [] then Entry(mbr, 0) else ext[0]
  }

  lemma FirstIsLogical(d: seq<byte>, capacity: nat)
    requires |d| >= SECTOR_SIZE && capacity > 0 && LogicalOf(d, 0, capacity).Walked?
    ensures var l, used := LogicalOf(d, 0, capacity).logical, UsedEntries(Sector(d, 0), 0);
      if used == 0 then l == [] else l != [] && l[0] == FirstLogical(Sector(d, 0))
  {
    hide Entry;
    var mbr := Sector(d, 0);
    var ext := Extended(mbr, UsedEntries(mbr, 0));
    if ext != [] {
      FollowKeeps(d, ext, ext[0].first, capacity);
    } else if UsedEntries(mbr, 0) > 0 && (capacity >= 2 || Entry(mbr, 1).kind == PART_EMPTY) {
      FollowStep(d, [], 0, capacity);
      var l2 := [] + [Entry(mbr, 0)] + [Entry(mbr, 1)];
      assert [] + [Entry(mbr, 0)] == [Entry(mbr, 0)] && l2[0] == ([] + [Entry(mbr, 0)])[0];
      FollowKeeps(d, l2, (Entry(mbr, 1).first + l2[0].first) % U32, capacity);
    }
  }

  // ----- The base of the Finux partition -----

  /** Uninitialised: with no logical partition at all make_fs goes on with a pointer it never set. */
  datatype Found = Found(part: Part, base: nat) | Panic | Uninitialised

  predicate FirstFinux(parts: seq<Part>, p: nat) {
    p < |parts| && parts[p].kind == FINUX_SYSID && forall j | 0 <= j < p :: parts[j].kind != FINUX_SYSID
  }

  predicate NoFinux(parts: seq<Part>) {
    forall j | 0 <= j < |parts| :: parts[j].kind != FINUX_SYSID
  }

  /** make_fs up to and including line 152; additions are of u32.  The array has room for at least
      four logical entries, since `part` is compared with the capacity of either array. */
  method FindFinuxPart(primary: array<Part>, logical: array<Part>) returns (r: Found)
    requires primary.Length == PRIMARY_MAX_CNT < logical.Length
    requires NoFinux(primary[..]) ==> logical[0].kind != FINUX_SYSID
    ensures forall p: nat :: FirstFinux(primary[..], p) ==>
              r == Found(primary[p], (primary[p].first + logical[0].first) % U32)
    ensures NoFinux(primary[..]) && logical[0].kind == PART_EMPTY ==> r == Uninitialised
    ensures NoFinux(primary[..]) && logical[0].kind != PART_EMPTY && NoFinux(logical[..]) ==> r == Panic
    ensures NoFinux(primary[..]) && logical[0].kind != PART_EMPTY ==>
              forall p: nat :: FirstFinux(logical[..], p) ==> r == Found(logical[p],
                (logical[p].first + logical[0].first
                 + if logical[p - 1].kind == logical[0].kind && p - 1 != 0 then logical[p - 1].first else 0) % U32)
  {
    hide FirstFinux, NoFinux;
    var finux: Option<Part> := None;
    var part := SearchFinux(primary);
    if part < PRIMARY_MAX_CNT {
      finux := Some(primary[part]);
      OnlyFirst(primary[..], part);
    } else {
      NoFirst(primary[..]);
    }
    var base_sector: nat := logical[0].first;
    if part >= PRIMARY_MAX_CNT && logical[0].kind != PART_EMPTY {
      part := SearchFinux(logical);
      if part < logical.Length {
        finux := Some(logical[part]);
        OnlyFirst(logical[..], part);
        assert part != 0;
        if logical[part - 1].kind == logical[0].kind && part - 1 != 0 {
          AddTwice(logical[part].first, base_sector + logical[part - 1].first);
          base_sector := (base_sector + logical[part - 1].first) % U32;
        }
      } else {
        NoFirst(logical[..]);
      }
    }
    if part >= logical.Length {
      return Panic;
    }
    match finux
    case None => return Uninitialised;
    case Some(p) => return Found(p, (p.first + base_sector) % U32);
  }

  /** The loops over the arrays, up to their break. */
  method SearchFinux(parts: array<Part>) returns (part: nat)
    ensures part < parts.Length ==> FirstFinux(parts[..], part)
    ensures part >= parts.Length ==> part == parts.Length && NoFinux(parts[..])
  {
    part := 0;
    while part < parts.Length
      invariant 0 <= part <= parts.Length
      invariant forall j | 0 <= j < part :: parts[..][j].kind != FINUX_SYSID
    {
      if parts[part].kind == FINUX_SYSID {
        return;
      }
      part := part + 1;
    }
  }

  lemma OnlyFirst(parts: seq<Part>, p: nat)
    requires FirstFinux(parts, p)
    ensures p < |parts| && parts[p].kind == FINUX_SYSID
    ensures !NoFinux(parts) && forall q: nat | FirstFinux(parts, q) :: q == p
  {
  }

  lemma NoFirst(parts: seq<Part>)
    requires NoFinux(parts)
    ensures forall q: nat :: !FirstFinux(parts, q)
  {
  }

  lemma AddTwice(a: nat, b: nat)
    ensures (a + b % U32) % U32 == (a + b) % U32
  {
    var q := b / U32;
    assert a + b == a + b % U32 + U32 * q;
    AddMultiple(a + b % U32, q);
  }

  lemma AddMultiple(x: nat, q: nat)
    ensures (x + 0x1_0000_0000 * q) % 0x1_0000_0000 == x % 0x1_0000_0000
    decreases q
  {
    if q > 0 {
      AddMultiple(x, q - 1);
      assert x + 0x1_0000_0000 * q == (x + 0x1_0000_0000 * (q - 1)) + 0x1_0000_0000;
    }
  }

  ghost predicate Blank(a: seq<Part>) {
    forall j | 0 <= j < |a| :: a[j] == Part(0, 0, 0)
  }

  /** The first Finux entry of the master boot record is entry p. */
  ghost predicate FinuxPrimary(mbr: seq<byte>, p: nat) {
    && |mbr| == SECTOR_SIZE && p < UsedEntries(mbr, 0) && Entry(mbr, p).kind == FINUX_SYSID
    && forall j | 0 <= j < p :: Entry(mbr, j).kind != FINUX_SYSID
  }

  /** get_part_information and make_fs up to line 152 on any disk, with the arrays as the loader starts
      with them; the result means something if the walk ended well. */
  method Locate(hd: Disk, primary: array<Part>, logical: array<Part>, behind: byte) returns (w: Walk, r: Found)
    requires primary != logical && primary.Length == PRIMARY_MAX_CNT < logical.Length && |hd.bytes| >= SECTOR_SIZE
    requires Blank(primary[..]) && Blank(logical[..])
    modifies primary, logical
    ensures w == if UsedEntries(Sector(hd.bytes, 0), 0) == 4 && behind != PART_EMPTY then PastBuffer
                 else LogicalOf(hd.bytes, 0, logical.Length)
    ensures w.Walked? ==> forall p: nat | FinuxPrimary(Sector(hd.bytes, 0), p) ::
              r == Found(Entry(Sector(hd.bytes, 0), p), PrimaryBase(Sector(hd.bytes, 0), p))
    ensures w.Walked? && NoPrimary(Sector(hd.bytes, 0)) ==>
              match r
              case Uninitialised => w.logical == []
              case Panic => w.logical != [] && NoFinux(w.logical)
              case Found(part, base) =>
                exists p: nat :: FirstFinux(w.logical, p) && part == w.logical[p] && base == LogicalBase(w.logical, p)
  {
    hide Entry, LogicalOf, FirstFinux, NoFinux, FinuxPrimary, NoPrimary, FirstLogical, LogicalBase, UsedEntries;
    w := GetPartInformation(hd, primary, logical, behind);
    if !w.Walked? {
      return w, Uninitialised;
    }
    ghost var mbr := Sector(hd.bytes, 0);
    FirstIsLogical(hd.bytes, logical.Length);
    PrimariesOf(mbr, primary[..]);
    FirstKind(mbr);
    BlankArray(logical[..], w.logical);
    r := FindFinuxPart(primary, logical);
    assert forall p: nat | FinuxPrimary(mbr, p) :: primary[..][p] == primary[p];
    if NoPrimary(mbr) {
      assert forall p: nat | FirstFinux(logical[..], p) ::
          logical[..][p] == logical[p] && logical[..][p - 1] == logical[p - 1];
      ChoiceInList(logical[..], w.logical, r);
    }
  }

  lemma BlankArray(a: seq<Part>, l: seq<Part>)
    requires |a| > 0 && |l| <= |a| && forall j | 0 <= j < |a| :: a[j] == if j < |l| then l[j] else Part(0, 0, 0)
    ensures a[0] == if l == [] then Part(0, 0, 0) else l[0]
    ensures forall p: nat | FirstFinux(a, p) :: p < |a| && (p == 0 ==> l != [] && l[0].kind == FINUX_SYSID)
  {
  }

  /** The array of primary entries and the record have the same Finux entries. */
  lemma PrimariesOf(mbr: seq<byte>, a: seq<Part>)
    requires |mbr| == SECTOR_SIZE && |a| == 4
    requires forall j | 0 <= j < 4 :: a[j] == if j < UsedEntries(mbr, 0) then Entry(mbr, j) else Part(0, 0, 0)
    ensures NoFinux(a) <==> NoPrimary(mbr)
    ensures forall p: nat | FinuxPrimary(mbr, p) ::
              p < 4 && FirstFinux(a, p) && a[p] == Entry(mbr, p) && UsedEntries(mbr, 0) > 0 && !NoPrimary(mbr)
  {
    hide Entry;
    if NoFinux(a) {
      forall j | 0 <= j < UsedEntries(mbr, 0) ensures Entry(mbr, j).kind != FINUX_SYSID {
        assert a[j] == Entry(mbr, j);
      }
    }
  }

  lemma FirstKind(mbr: seq<byte>)
    requires |mbr| == SECTOR_SIZE
    ensures UsedEntries(mbr, 0) > 0 && NoPrimary(mbr) ==>
              FirstLogical(mbr).kind != FINUX_SYSID && FirstLogical(mbr).kind != PART_EMPTY
  {
    hide Entry;
  }

  /** The choice among the logical entries, for the list behind which the array is blank. */
  lemma ChoiceInList(a: seq<Part>, l: seq<Part>, r: Found)
    requires |a| > 0 && |l| <= |a| && forall j | 0 <= j < |a| :: a[j] == if j < |l| then l[j] else Part(0, 0, 0)
    requires l == [] || (l[0].kind != PART_EMPTY && l[0].kind != FINUX_SYSID)
    requires a[0].kind == PART_EMPTY ==> r == Uninitialised
    requires a[0].kind != PART_EMPTY && NoFinux(a) ==> r == Panic
    requires a[0].kind != PART_EMPTY ==> forall p: nat :: FirstFinux(a, p) ==> r == Found(a[p],
               (a[p].first + a[0].first + if a[p - 1].kind == a[0].kind && p - 1 != 0 then a[p - 1].first else 0) % U32)
    ensures match r
      case Uninitialised => l == []
      case Panic => l != [] && NoFinux(l)
      case Found(part, base) => exists p: nat :: FirstFinux(l, p) && part == l[p] && base == LogicalBase(l, p)
  {
    BlankTail(a, l);
    if l != [] && !NoFinux(l) {
      var p := FirstExists(l);
      assert FirstFinux(a, p) && a[p] == l[p] && p != 0;
      assert a[p - 1] == l[p - 1] && a[0] == l[0];
      assert r == Found(l[p], LogicalBase(l, p));
    }
  }

  /** Behind the list the array is blank, so that both have the same Finux entries. */
  lemma BlankTail(a: seq<Part>, l: seq<Part>)
    requires |l| <= |a| && forall j | 0 <= j < |a| :: a[j] == if j < |l| then l[j] else Part(0, 0, 0)
    ensures NoFinux(a) <==> NoFinux(l)
    ensures forall p: nat :: FirstFinux(a, p) <==> FirstFinux(l, p)
  {
    if NoFinux(a) {
      forall j | 0 <= j < |l| ensures l[j].kind != FINUX_SYSID {
        assert a[j] == l[j];
      }
    }
    forall p: nat | FirstFinux(l, p) ensures FirstFinux(a, p) {
      assert a[p] == l[p];
    }
    forall p: nat | FirstFinux(a, p) ensures FirstFinux(l, p) {
      assert p < |l| && a[p] == l[p];
      assert forall j | 0 <= j < p :: l[j] == a[j];
    }
  }

  lemma {:induction false} FirstExists(l: seq<Part>) returns (p: nat)
    requires !NoFinux(l)
    ensures FirstFinux(l, p)
    decreases |l|
  {
    var n := |l| - 1;
    if NoFinux(l[..n]) {
      p := n;
      forall j | 0 <= j < n ensures l[j].kind != FINUX_SYSID {
        assert l[..n][j] == l[j];
      }
    } else {
      p := FirstExists(l[..n]);
      assert l[..n][p] == l[p];
      forall j | 0 <= j < p ensures l[j].kind != FINUX_SYSID {
        assert l[..n][j] == l[j];
      }
    }
  }

  /** No entry in use of the master boot record is a Finux partition. */
  ghost predicate NoPrimary(mbr: seq<byte>)
    requires |mbr| == SECTOR_SIZE
  {
    forall j | 0 <= j < UsedEntries(mbr, 0) :: Entry(mbr, j).kind != FINUX_SYSID
  }

  /** What make_fs takes for the base of a logical partition at position p of the list. */
  function LogicalBase(l: seq<Part>, p: nat): nat
    requires p < |l|
  {
    (l[p].first + l[0].first + if p > 1 && l[p - 1].kind == l[0].kind then l[p - 1].first else 0) % U32
  }

  /** What make_fs takes for the base of a Finux primary partition. */
  function PrimaryBase(mbr: seq<byte>, p: nat): nat
    requires |mbr| == SECTOR_SIZE && p < 4
  {
    (Entry(mbr, p).first + FirstLogical(mbr).first) % U32
  }

  /** That base is right if and only if the first extended entry, or without any the first entry of
      all, starts at sector 0. */
  lemma PrimaryBaseIsRight(mbr: seq<byte>, p: nat)
    requires FinuxPrimary(mbr, p)
    ensures PrimaryBase(mbr, p) == Entry(mbr, p).first <==> FirstLogical(mbr).first == 0
  {
    hide Entry;
  }

  /** A disk of one sector with one partition, a Finux one from sector 63 on. */
  function FinuxOnly(): (d: seq<byte>)
    ensures |d| == SECTOR_SIZE
  {
    Zeros(446) + FinuxEntry() + Zeros(48) + [0x55, 0xaa]
  }

  function FinuxEntry(): (r: seq<byte>)
    ensures |r| == 16
  {
    [0, 0, 0, 0, 0xd, 0, 0, 0] + [63, 0, 0, 0] + [0xe8, 0x03, 0, 0]
  }

  /** The plainest disk fails: its only partition is taken to start at sector 126. */
  lemma OnlyPrimaryFails(capacity: nat)
    requires capacity > 0
    ensures LogicalOf(FinuxOnly(), 0, capacity).Walked?
    ensures FinuxPrimary(FinuxOnly(), 0) && Entry(FinuxOnly(), 0).first == 63 && PrimaryBase(FinuxOnly(), 0) == 126
  {
    var d := FinuxOnly();
    FinuxOnlyEntries();
    hide Entry, FinuxOnly;
    assert Sector(d, 0) == d;
    assert UsedEntries(d, 0) == 1 && Extended(d, 1) == Extended(d, 0) == [];
    FollowStep(d, [], 0, capacity);
  }

  lemma FinuxOnlyEntries()
    ensures Entry(FinuxOnly(), 0) == Part(FINUX_SYSID, 63, 1000) && Entry(FinuxOnly(), 1).kind == PART_EMPTY
  {
    var d, o := FinuxOnly(), 446;
    assert d[o..o + 16] == FinuxEntry();
    SliceOfSlice(d, o, o + 16, 8, 12);
    SliceOfSlice(d, o, o + 16, 12, 16);
    assert d[o + 4] == d[o..o + 16][4] == FINUX_SYSID;
    assert FinuxEntry()[8..12] == [63, 0, 0, 0] && FinuxEntry()[12..16] == [0xe8, 0x03, 0, 0];
    assert d[o + 16..o + 32] == Zeros(16) && d[o + 20] == d[o + 16..o + 32][4];
  }

  /** A record whose only entry is an extended partition from sector 2 on. */
  function ExtendedMbr(): (d: seq<byte>)
    ensures |d| == SECTOR_SIZE
  {
    Zeros(446) + [0, 0, 0, 0, 5, 0, 0, 0] + [2, 0, 0, 0] + [0, 2, 0, 0] + Zeros(48) + [0x55, 0xaa]
  }

  lemma ExtendedMbrEntries()
    ensures Entry(ExtendedMbr(), 0) == Part(5, 2, 512) && Entry(ExtendedMbr(), 1).kind == 0
  {
    var d := ExtendedMbr();
    EntryFields(d, 0);
    EntryFields(d, 1);
    assert d[446..462] == [0, 0, 0, 0, 5, 0, 0, 0] + [2, 0, 0, 0] + [0, 2, 0, 0];
    forall i | 0 <= i < 16 ensures d[446 + i] == d[446..462][i] {
    }
    assert d[450] == d[446 + 4] && d[454] == d[446 + 8] && d[455] == d[446 + 9];
    assert d[458] == d[446 + 12] && d[459] == d[446 + 13];
    assert d[462..510] == Zeros(48) && d[466] == d[462..510][4];
  }

  /** A disk of three sectors whose extended partition starts at sector 2 and holds a Finux partition 63
      sectors behind its table. */
  function ExtendedDisk(): (d: seq<byte>)
    ensures |d| == 3 * SECTOR_SIZE
    ensures Sector(d, 0) == ExtendedMbr() && Sector(d, 2) == FinuxOnly()
  {
    var d := ExtendedMbr() + Zeros(SECTOR_SIZE) + FinuxOnly();
    assert d[0..SECTOR_SIZE] == ExtendedMbr() && d[2 * SECTOR_SIZE..3 * SECTOR_SIZE] == FinuxOnly();
    d
  }

  /** The loader finds the partition of that disk at sector 65. */
  lemma ExtendedDiskIsWalked(capacity: nat)
    requires capacity >= 2
    ensures LogicalOf(ExtendedDisk(), 0, capacity) == Walked([Part(5, 2, 512), Part(13, 63, 1000)])
    ensures LogicalBase([Part(5, 2, 512), Part(13, 63, 1000)], 1) == 65
  {
    hide Entry, ExtendedDisk, FinuxOnly, ExtendedMbr;
    var d, mbr := ExtendedDisk(), ExtendedMbr();
    ExtendedMbrEntries();
    FinuxOnlyEntries();
    assert UsedEntries(mbr, 0) == 1;
    assert Extended(mbr, 0) == [] && Extended(mbr, 1) == [Entry(mbr, 0)];
    FollowStep(d, [Entry(mbr, 0)], 2, capacity);
  }

  /** Walking any extended chain that fits the array and then looking for the Finux partition gives
      the sector at which the first Finux logical partition starts on the disk. */
  method LocateFinux(hd: Disk, primary: array<Part>, logical: array<Part>, behind: byte,
                     ghost used: nat, ghost x: nat, ghost e: nat, ghost chain: seq<Logical>, ghost i: nat)
    returns (r: Found)
    requires primary != logical && primary.Length == PRIMARY_MAX_CNT < logical.Length && 2 * |chain| <= logical.Length
    requires forall j | 0 <= j < PRIMARY_MAX_CNT :: primary[j].kind != FINUX_SYSID
    requires SECTOR_SIZE <= |hd.bytes| <= SECTOR_SIZE * U32
    requires IsMbr(Sector(hd.bytes, 0), used, x, e) && ChainOnDisk(hd.bytes, e, chain)
    requires used == 4 ==> behind == PART_EMPTY
    requires forall j | 0 <= j < used :: Entry(Sector(hd.bytes, 0), j).kind != FINUX_SYSID
    requires i < |chain| && chain[i].part.kind == FINUX_SYSID && AbsoluteStart(e, chain, i) < U32
    requires forall j | 0 <= j < i :: chain[j].part.kind != FINUX_SYSID
    modifies primary, logical
    ensures r == Found(chain[i].part, AbsoluteStart(e, chain, i))
  {
    hide Entry, LogicalOf;
    ChainIsCollected(hd.bytes, used, x, e, chain, logical[0].first, logical.Length);
    var w := GetPartInformation(hd, primary, logical, behind);
    ListIsCollected(logical[..], w.logical, e, chain);
    FinuxIsAt(logical[..], e, chain, i);
    assert logical[..][0] == logical[0] && logical[..][2 * i] == logical[2 * i];
    assert logical[..][2 * i + 1] == logical[2 * i + 1];
    assert NoFinux(primary[..]);
    r := FindFinuxPart(primary, logical);
  }

  lemma ListIsCollected(a: seq<Part>, l: seq<Part>, e: nat, chain: seq<Logical>)
    requires Collected(l, e, chain, |chain|) && |l| <= |a| && forall j | 0 <= j < |l| :: a[j] == l[j]
    ensures Collected(a, e, chain, |chain|)
  {
    forall i | 0 <= i < |chain| ensures LinkAt(a, e, chain, i) && PartitionAt(a, chain, i) {
      assert LinkAt(l, e, chain, i) && PartitionAt(l, chain, i);
    }
  }

  lemma FinuxIsAt(logical: seq<Part>, e: nat, chain: seq<Logical>, i: nat)
    requires Collected(logical, e, chain, |chain|) && i < |chain| && chain[i].part.kind == FINUX_SYSID
    requires forall j | 0 <= j < i :: chain[j].part.kind != FINUX_SYSID
    ensures FirstFinux(logical, 2 * i + 1) && LinkAt(logical, e, chain, 0)
    ensures PartitionAt(logical, chain, i) && LinkAt(logical, e, chain, i)
  {
    forall j | 0 <= j < 2 * i + 1 ensures logical[j].kind != FINUX_SYSID {
      assert j == if j % 2 == 0 then 2 * (j / 2) else 2 * (j / 2) + 1;
      assert LinkAt(logical, e, chain, j / 2) && (j % 2 == 1 ==> PartitionAt(logical, chain, j / 2));
    }
    assert PartitionAt(logical, chain, i);
  }
}
