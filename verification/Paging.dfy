/** The identity page map (kernel/mm/page.c: get_page_cnt, get_ptet_cnt, set_page).

    Physical memory is an array of 32-bit words; the word at byte address a has index a / 4. */
module Paging {
  import opened Common

  const PAGE_SIZE := 0x1000
  const PAGE_ENTRYS := 1024
  const PAGE_DIR_LOCAL := 0x100000
  const PAGE_TABLE_LOCAL := 0x101000
  const TABLE_SPAN := 0x40_0000  // bytes mapped by one page table

  /** The fields of struct e820_ARDS that the kernel reads. */
  datatype Region = Region(baselow: nat, lenthlow: nat, kind: nat)

  predicate Regions(map_: seq<Region>) {
    0 < |map_| && forall i | 0 <= i < |map_| :: map_[i].baselow < U32 && map_[i].lenthlow < U32
  }

  // ----- How much memory there is -----

  /** The region get_page_cnt settles on: the last usable one, or the first if none is usable. */
  function LastUsable(map_: seq<Region>): (k: nat)
    requires map_ != []
    ensures k < |map_|
    ensures map_[k].kind == 1 ==> forall j | k < j < |map_| :: map_[j].kind != 1
    ensures map_[k].kind != 1 ==> k == 0 && forall j | 0 <= j < |map_| :: map_[j].kind != 1
  {
    var n := |map_| - 1;
    if map_[n].kind == 1 || n == 0 then n else LastUsable(map_[..n])
  }

  /** Where the last usable region ends, without the wrap-around of u32. */
  function MemoryEnd(map_: seq<Region>): nat
    requires map_ != []
  {
    map_[LastUsable(map_)].baselow + map_[LastUsable(map_)].lenthlow
  }

  function EndAddress(map_: seq<Region>): nat
    requires map_ != []
  {
    MemoryEnd(map_) % U32
  }

  /** get_page_cnt */
  method GetPageCnt(map_: seq<Region>) returns (cnt: nat)
    requires Regions(map_)
    ensures cnt == (EndAddress(map_) + PAGE_SIZE - 1) % U32 / PAGE_SIZE
  {
    var tmp_map := map_[0];
    ghost var k := 0;
    for i := 0 to |map_|
      invariant k < |map_| && tmp_map == map_[k] && (k == 0 || k < i)
      invariant tmp_map.kind == 1 ==> forall j | k < j < i :: map_[j].kind != 1
      invariant tmp_map.kind != 1 ==> k == 0 && forall j | 0 <= j < i :: map_[j].kind != 1
    {
      if map_[i].kind == 1 {
        tmp_map := map_[i];
        k := i;
      }
    }
    assert k == LastUsable(map_);
    var end_address := (tmp_map.baselow + tmp_map.lenthlow) % U32;
    cnt := (end_address + PAGE_SIZE - 1) % U32 / PAGE_SIZE;
  }

  /** get_ptet_cnt */
  function PtetCnt(page_cnt: nat): nat {
    (page_cnt + 1023) / 1024
  }

  /** How many page tables set_page fills. */
  function TablesFor(map_: seq<Region>): nat
    requires map_ != []
  {
    PtetCnt((EndAddress(map_) + PAGE_SIZE - 1) % U32 / PAGE_SIZE)
  }

  // ----- The hardware's page walk -----

  datatype Mapping = Mapping(physical: nat, dirFlags: nat, tableFlags: nat)

  /** x & ~(PAGE_SIZE - 1) */
  function PageBase(x: nat): nat {
    x - x % PAGE_SIZE
  }

  /** x | 7 */
  function WithFlags7(x: nat): nat {
    x - x % 8 + 7
  }

  function WordAt(mem: seq<nat>, address: nat): Option<nat> {
    if address % 4 == 0 && address / 4 < |mem| then Some(mem[address / 4]) else None
  }

  /** 32-bit paging with 4-KByte pages, section 4.3 of the Intel 64 and IA-32 Architectures Software
      Developer's Manual, Volume 3A: bits 31:22 of the linear address select the directory entry,
      bits 21:12 the table entry; an entry with bit 0 clear maps nothing.  The flags are the low
      three bits (present, writable, user) of the two entries. */
  function Walk(mem: seq<nat>, cr3: nat, linear: nat): Option<Mapping> {
    match WordAt(mem, PageBase(cr3) + 4 * (linear / TABLE_SPAN))
    case None => None
    case Some(pde) =>
      if pde % 2 == 0 then None else
      match WordAt(mem, PageBase(pde) + 4 * (linear / PAGE_SIZE % PAGE_ENTRYS))
      case None => None
      case Some(pte) =>
        if pte % 2 == 0 then None else
        Some(Mapping(PageBase(pte) + linear % PAGE_SIZE, pde % 8, pte % 8))
  }

  // ----- set_page -----

  ghost predicate WordIs(mem: seq<nat>, w: nat, value: nat) {
    w < |mem| && mem[w] == value
  }

  /** The first `tables` directory entries point at consecutive tables, ... */
  ghost predicate DirectoryDone(mem: seq<nat>, tables: nat) {
    forall i | 0 <= i < tables :: WordIs(mem, PAGE_DIR_LOCAL / 4 + i, PAGE_TABLE_LOCAL + PAGE_SIZE * i + 7)
  }

  /** ... and the first `entries` table entries map consecutive pages. */
  ghost predicate TablesDone(mem: seq<nat>, entries: nat) {
    forall n | 0 <= n < entries :: WordIs(mem, PAGE_TABLE_LOCAL / 4 + n, PAGE_SIZE * n + 7)
  }

  /** Only the used directory entries and page tables differ. */
  ghost predicate SameElsewhere(mem: seq<nat>, mem': seq<nat>, tables: nat) {
    && |mem'| == |mem|
    && forall w | 0 <= w < |mem| && !(PAGE_DIR_LOCAL / 4 <= w < PAGE_DIR_LOCAL / 4 + tables)
                  && !(PAGE_TABLE_LOCAL / 4 <= w < PAGE_TABLE_LOCAL / 4 + PAGE_ENTRYS * tables) :: mem'[w] == mem[w]
  }

  /** The directory index, table index and offset of a linear address. */
  lemma SplitLinear(tables: nat, linear: nat)
    requires linear < TABLE_SPAN * tables
    ensures linear / TABLE_SPAN < tables && linear / PAGE_SIZE % PAGE_ENTRYS < PAGE_ENTRYS
    ensures linear / PAGE_SIZE == PAGE_ENTRYS * (linear / TABLE_SPAN) + linear / PAGE_SIZE % PAGE_ENTRYS
    ensures linear / PAGE_SIZE < PAGE_ENTRYS * tables
    ensures PAGE_SIZE * (PAGE_ENTRYS * (linear / TABLE_SPAN) + linear / PAGE_SIZE % PAGE_ENTRYS) + linear % PAGE_SIZE
       == linear
  {
  }

  /** A present entry with flags 7 for the frame at address `frame`. */
  predicate IsEntry(entry: nat, frame: nat) {
    PageBase(entry) == frame && entry % 2 == 1 && entry % 8 == 7
  }

  lemma EntryFor(page: nat)
    ensures IsEntry(PAGE_SIZE * page + 7, PAGE_SIZE * page)
  {
    var x := PAGE_SIZE * page;
    assert x == 4096 * page && x + 7 == 8 * (512 * page) + 7 == 2 * (2048 * page + 3) + 1;
    PageMultiple(page);
    EightMultiple(512 * page);
    TwoMultiple(2048 * page + 3);
  }

  lemma PageMultiple(k: nat)
    ensures (4096 * k + 7) % 4096 == 7
  {
  }

  lemma EightMultiple(k: nat)
    ensures (8 * k + 7) % 8 == 7
  {
  }

  lemma TwoMultiple(k: nat)
    ensures (2 * k + 1) % 2 == 1
  {
  }

  lemma FourMultiple(k: nat)
    ensures 4 * k % 4 == 0 && 4 * k / 4 == k
  {
  }

  lemma DirectoryLookup(mem: seq<nat>, tables: nat, i: nat)
    requires i < tables <= 1024 && DirectoryDone(mem, tables)
    ensures WordAt(mem, PageBase(PAGE_DIR_LOCAL) + 4 * i) == Some(PAGE_TABLE_LOCAL + PAGE_SIZE * i + 7)
    ensures IsEntry(PAGE_TABLE_LOCAL + PAGE_SIZE * i + 7, PAGE_TABLE_LOCAL + PAGE_SIZE * i)
  {
    hide IsEntry;
    EntryFor(PAGE_TABLE_LOCAL / PAGE_SIZE + i);
    assert WordIs(mem, PAGE_DIR_LOCAL / 4 + i, PAGE_TABLE_LOCAL + PAGE_SIZE * i + 7);
    assert PAGE_DIR_LOCAL + 4 * i == 4 * (PAGE_DIR_LOCAL / 4 + i);
    FourMultiple(PAGE_DIR_LOCAL / 4 + i);
  }

  lemma TableLookup(mem: seq<nat>, tables: nat, i: nat, g: nat)
    requires i < tables && g < PAGE_ENTRYS && TablesDone(mem, PAGE_ENTRYS * tables)
    ensures WordAt(mem, PAGE_TABLE_LOCAL + PAGE_SIZE * i + 4 * g) == Some(PAGE_SIZE * (PAGE_ENTRYS * i + g) + 7)
    ensures IsEntry(PAGE_SIZE * (PAGE_ENTRYS * i + g) + 7, PAGE_SIZE * (PAGE_ENTRYS * i + g))
  {
    hide IsEntry;
    EntryFor(PAGE_ENTRYS * i + g);
    var n := PAGE_ENTRYS * i + g;
    assert WordIs(mem, PAGE_TABLE_LOCAL / 4 + n, PAGE_SIZE * n + 7);
    assert PAGE_TABLE_LOCAL + PAGE_SIZE * i + 4 * g == 4 * (PAGE_TABLE_LOCAL / 4 + n);
    FourMultiple(PAGE_TABLE_LOCAL / 4 + n);
  }

  /** The walk finds the entries written for the address. */
  lemma WalkIsIdentity(mem: seq<nat>, tables: nat, linear: nat)
    requires tables <= 1024 && DirectoryDone(mem, tables) && TablesDone(mem, PAGE_ENTRYS * tables)
    requires linear < TABLE_SPAN * tables
    ensures Walk(mem, PAGE_DIR_LOCAL, linear) == Some(Mapping(linear, 7, 7))
  {
    hide WordAt, PageBase, DirectoryDone, TablesDone;
    SplitLinear(tables, linear);
    var i, g := linear / TABLE_SPAN, linear / PAGE_SIZE % PAGE_ENTRYS;
    DirectoryLookup(mem, tables, i);
    TableLookup(mem, tables, i, g);
  }

  /** One more directory entry: no table entry is touched. */
  lemma DirectoryGrows(mem: seq<nat>, was: seq<nat>, mem': seq<nat>, PT: nat, tables: nat)
    requires PT < tables <= 1024 && PAGE_TABLE_LOCAL / 4 + PAGE_ENTRYS * tables <= |mem|
    requires DirectoryDone(mem, PT) && TablesDone(mem, PAGE_ENTRYS * PT) && SameElsewhere(was, mem, tables)
    requires mem' == mem[PAGE_DIR_LOCAL / 4 + PT := PAGE_TABLE_LOCAL + PAGE_SIZE * PT + 7]
    ensures DirectoryDone(mem', PT + 1) && TablesDone(mem', PAGE_ENTRYS * PT) && SameElsewhere(was, mem', tables)
  {
    forall i | 0 <= i < PT + 1 ensures WordIs(mem', PAGE_DIR_LOCAL / 4 + i, PAGE_TABLE_LOCAL + PAGE_SIZE * i + 7) {
      assert i < PT ==> WordIs(mem, PAGE_DIR_LOCAL / 4 + i, PAGE_TABLE_LOCAL + PAGE_SIZE * i + 7);
    }
    forall n | 0 <= n < PAGE_ENTRYS * PT ensures WordIs(mem', PAGE_TABLE_LOCAL / 4 + n, PAGE_SIZE * n + 7) {
      assert WordIs(mem, PAGE_TABLE_LOCAL / 4 + n, PAGE_SIZE * n + 7);
    }
  }

  /** One more table entry: the directory is not touched. */
  lemma TableGrows(mem: seq<nat>, was: seq<nat>, mem': seq<nat>, PT: nat, n: nat, tables: nat)
    requires PT < tables <= 1024 && n < PAGE_ENTRYS * tables && PAGE_TABLE_LOCAL / 4 + PAGE_ENTRYS * tables <= |mem|
    requires DirectoryDone(mem, PT + 1) && TablesDone(mem, n) && SameElsewhere(was, mem, tables)
    requires mem' == mem[PAGE_TABLE_LOCAL / 4 + n := PAGE_SIZE * n + 7]
    ensures DirectoryDone(mem', PT + 1) && TablesDone(mem', n + 1) && SameElsewhere(was, mem', tables)
  {
    forall i | 0 <= i < PT + 1 ensures WordIs(mem', PAGE_DIR_LOCAL / 4 + i, PAGE_TABLE_LOCAL + PAGE_SIZE * i + 7) {
      assert WordIs(mem, PAGE_DIR_LOCAL / 4 + i, PAGE_TABLE_LOCAL + PAGE_SIZE * i + 7);
    }
    forall k | 0 <= k < n + 1 ensures WordIs(mem', PAGE_TABLE_LOCAL / 4 + k, PAGE_SIZE * k + 7) {
      assert k < n ==> WordIs(mem, PAGE_TABLE_LOCAL / 4 + k, PAGE_SIZE * k + 7);
    }
  }

  lemma Multiples(k: nat)
    ensures 8 * k % 8 == 0
  {
  }

  lemma Small(x: nat)
    requires x < 0x1_0000_0000
    ensures x % U32 == x
  {
  }

  /** The value and the address of one table entry. */
  lemma EntryValue(n: nat)
    requires n < 1024 * 1024
    ensures PAGE_SIZE * n % U32 == PAGE_SIZE * n
    ensures WithFlags7(PAGE_SIZE * n) == PAGE_SIZE * n + 7
  {
    var x := PAGE_SIZE * n;
    assert x == 8 * (512 * n);
    Multiples(512 * n);
    Small(x);
  }

  lemma EntryAddress(PT: nat, PG: nat)
    ensures (PAGE_TABLE_LOCAL + PAGE_SIZE * PT + 4 * PG) / 4 == PAGE_TABLE_LOCAL / 4 + PAGE_ENTRYS * PT + PG
  {
    assert PAGE_TABLE_LOCAL + PAGE_SIZE * PT + 4 * PG == 4 * (PAGE_TABLE_LOCAL / 4 + PAGE_ENTRYS * PT + PG);
    FourMultiple(PAGE_TABLE_LOCAL / 4 + PAGE_ENTRYS * PT + PG);
  }

  /** The innermost loop of set_page: one page table. */
  method FillTable(mem: array<nat>, tmptable: nat, base: nat, ghost PT: nat, ghost tables: nat) returns (pagebase: nat)
    requires PT < tables <= 1024 && tmptable == PAGE_TABLE_LOCAL + PAGE_SIZE * PT
    requires base == PAGE_SIZE * PAGE_ENTRYS * PT
    requires PAGE_TABLE_LOCAL + PAGE_SIZE * tables <= 4 * mem.Length
    requires DirectoryDone(mem[..], PT + 1) && TablesDone(mem[..], PAGE_ENTRYS * PT)
    modifies mem
    ensures pagebase == PAGE_SIZE * PAGE_ENTRYS * (PT + 1) % U32
    ensures DirectoryDone(mem[..], PT + 1) && TablesDone(mem[..], PAGE_ENTRYS * (PT + 1))
    ensures SameElsewhere(old(mem[..]), mem[..], tables)
  {
    hide DirectoryDone, TablesDone, SameElsewhere, WithFlags7;
    ghost var was := mem[..];
    pagebase := base;
    NothingElse(was, tables);
    for PG := 0 to PAGE_ENTRYS
      invariant pagebase == PAGE_SIZE * (PAGE_ENTRYS * PT + PG) % U32
      invariant DirectoryDone(mem[..], PT + 1) && TablesDone(mem[..], PAGE_ENTRYS * PT + PG)
      invariant SameElsewhere(was, mem[..], tables)
    {
      ghost var n, before := PAGE_ENTRYS * PT + PG, mem[..];
      EntryAddress(PT, PG);
      EntryValue(n);
      mem[(tmptable + 4 * PG) / 4] := WithFlags7(pagebase);
      TableGrows(before, was, mem[..], PT, n, tables);
      pagebase := (pagebase + PAGE_SIZE) % U32;
    }
  }

  lemma NothingElse(mem: seq<nat>, tables: nat)
    ensures SameElsewhere(mem, mem, tables) && DirectoryDone(mem, 0) && TablesDone(mem, 0)
  {
  }

  lemma SameTwice(m: seq<nat>, m1: seq<nat>, m2: seq<nat>, tables: nat)
    requires SameElsewhere(m, m1, tables) && SameElsewhere(m1, m2, tables)
    ensures SameElsewhere(m, m2, tables)
  {
  }

  /** The middle loop of set_page: one directory and its tables. */
  method FillDirectory(mem: array<nat>, tmpdir: nat, table: nat, base: nat, PTET_cnt: nat)
    returns (tmptable: nat, pagebase: nat)
    requires tmpdir == PAGE_DIR_LOCAL && table == PAGE_TABLE_LOCAL && base == 0 && PTET_cnt <= 1024
    requires PAGE_TABLE_LOCAL + PAGE_SIZE * PTET_cnt <= 4 * mem.Length
    modifies mem
    ensures DirectoryDone(mem[..], PTET_cnt) && TablesDone(mem[..], PAGE_ENTRYS * PTET_cnt)
    ensures SameElsewhere(old(mem[..]), mem[..], PTET_cnt)
  {
    hide DirectoryDone, TablesDone, SameElsewhere;
    ghost var was := mem[..];
    tmptable, pagebase := table, base;
    NothingElse(was, PTET_cnt);
    for PT := 0 to PTET_cnt
      invariant tmptable == PAGE_TABLE_LOCAL + PAGE_SIZE * PT
      invariant pagebase == PAGE_SIZE * PAGE_ENTRYS * PT % U32
      invariant DirectoryDone(mem[..], PT) && TablesDone(mem[..], PAGE_ENTRYS * PT)
      invariant SameElsewhere(was, mem[..], PTET_cnt)
    {
      ghost var before := mem[..];
      assert (tmpdir + 4 * PT) / 4 == PAGE_DIR_LOCAL / 4 + PT;
      assert WithFlags7(PageBase(tmptable)) == PAGE_TABLE_LOCAL + PAGE_SIZE * PT + 7;
      mem[(tmpdir + 4 * PT) / 4] := WithFlags7(PageBase(tmptable));
      DirectoryGrows(before, was, mem[..], PT, PTET_cnt);
      ghost var between := mem[..];
      pagebase := FillTable(mem, tmptable, pagebase, PT, PTET_cnt);
      SameTwice(was, between, mem[..], PTET_cnt);
      tmptable := tmptable + PAGE_SIZE;
    }
  }

  /** The tables cover all memory exactly when the end, rounded up to a page, does not wrap. */
  lemma TablesFit(map_: seq<Region>)
    requires Regions(map_)
    ensures TablesFor(map_) <= 1024 && PtetCnt(TablesFor(map_)) == (if TablesFor(map_) == 0 then 0 else 1)
    ensures MemoryEnd(map_) <= TABLE_SPAN * TablesFor(map_) <==> MemoryEnd(map_) + PAGE_SIZE - 1 < U32
    ensures MemoryEnd(map_) <= TABLE_SPAN * TablesFor(map_) ==>
              (MemoryEnd(map_) <= 254 * TABLE_SPAN <==> PAGE_TABLE_LOCAL + PAGE_SIZE * TablesFor(map_) <= 0x1ff000)
  {
    var m, e := MemoryEnd(map_), EndAddress(map_);
    assert m < U32 ==> e == m;
    TablesForEnd(e);
  }

  /** The tables for a given end address. */
  lemma TablesForEnd(e: nat)
    requires e < 0x1_0000_0000
    ensures var t := PtetCnt((e + PAGE_SIZE - 1) % U32 / PAGE_SIZE);
      && t <= 1024 && PtetCnt(t) == (if t == 0 then 0 else 1)
      && (e + PAGE_SIZE - 1 < U32 ==> e <= TABLE_SPAN * t)
      && (e + PAGE_SIZE - 1 >= U32 ==> t == 0)
      && (e + PAGE_SIZE - 1 < U32 ==> (e <= 254 * TABLE_SPAN <==> t <= 254))
  {
  }

  lemma IdentityMapped(mem: seq<nat>, tables: nat)
    requires tables <= 1024 && (tables > 0 ==> DirectoryDone(mem, tables) && TablesDone(mem, PAGE_ENTRYS * tables))
    ensures forall linear | 0 <= linear < TABLE_SPAN * tables ::
              Walk(mem, PAGE_DIR_LOCAL, linear) == Some(Mapping(linear, 7, 7))
  {
    hide DirectoryDone, TablesDone, Walk;
    forall linear | 0 <= linear < TABLE_SPAN * tables
      ensures Walk(mem, PAGE_DIR_LOCAL, linear) == Some(Mapping(linear, 7, 7))
    {
      WalkIsIdentity(mem, tables, linear);
    }
  }

  /** set_page up to the load of CR3, whose value is returned: below 4MB per table the processor maps
      every address to itself, and no other word is written.  The tables cover memory exactly when
      its end, rounded up to a page, is below 4GB, and then stay below 0x1ff000 exactly when it is
      within 254 tables. */
  method SetPage(mem: array<nat>, map_: seq<Region>) returns (pagedir: nat, ghost tables: nat)
    requires Regions(map_) && PAGE_TABLE_LOCAL + PAGE_SIZE * TablesFor(map_) <= 4 * mem.Length
    modifies mem
    ensures tables == TablesFor(map_)
    ensures MemoryEnd(map_) <= TABLE_SPAN * tables <==> MemoryEnd(map_) + PAGE_SIZE - 1 < U32
    ensures forall linear | 0 <= linear < TABLE_SPAN * tables ::
              Walk(mem[..], pagedir, linear) == Some(Mapping(linear, 7, 7))
    ensures SameElsewhere(old(mem[..]), mem[..], tables)
    ensures MemoryEnd(map_) <= TABLE_SPAN * tables ==>
              (MemoryEnd(map_) <= 254 * TABLE_SPAN <==> PAGE_TABLE_LOCAL + PAGE_SIZE * tables <= 0x1ff000)
    ensures 0x10_0000 <= pagedir < 0x1f_f000 && pagedir % 0x1000 == 0
    ensures forall w | 0 <= w < mem.Length && 4 * w < 0x10_0000 :: mem[w] == old(mem[w])
    ensures tables <= 254 ==> forall w | 0 <= w < mem.Length && 0x1f_f000 <= 4 * w :: mem[w] == old(mem[w])
  {
    hide DirectoryDone, TablesDone, SameElsewhere, Walk, EndAddress, MemoryEnd, PtetCnt;
    TablesFit(map_);
    var PAGE_cnt := GetPageCnt(map_);
    var PTET_cnt := PtetCnt(PAGE_cnt);
    var PDET_cnt := PtetCnt(PTET_cnt);
    tables := PTET_cnt;
    var tmpdir := PAGE_DIR_LOCAL;
    pagedir := tmpdir;
    var tmptable := PAGE_TABLE_LOCAL;
    var pagebase := PAGE_SIZE * 0;
    NothingElse(mem[..], tables);
    for PD := 0 to PDET_cnt
      invariant tmpdir == PAGE_DIR_LOCAL + PAGE_SIZE * PD
      invariant PD == 0 ==> tmptable == PAGE_TABLE_LOCAL && pagebase == 0
      invariant PD > 0 ==> DirectoryDone(mem[..], tables) && TablesDone(mem[..], PAGE_ENTRYS * tables)
      invariant SameElsewhere(old(mem[..]), mem[..], tables)
    {
      ghost var before := mem[..];
      tmptable, pagebase := FillDirectory(mem, tmpdir, tmptable, pagebase, PTET_cnt);
      SameTwice(old(mem[..]), before, mem[..], tables);
      tmpdir := tmpdir + PAGE_SIZE;
    }
    IdentityMapped(mem[..], tables);
    OnlyBelow2MB(old(mem[..]), mem[..], tables);
    assert forall w | 0 <= w < mem.Length :: mem[w] == mem[..][w] && old(mem[w]) == old(mem[..])[w];
  }

  /** In numbers: nothing below 1MB is written, and with at most 254 tables nothing from 0x1ff000 on. */
  lemma OnlyBelow2MB(m: seq<nat>, m': seq<nat>, tables: nat)
    requires SameElsewhere(m, m', tables)
    ensures |m'| == |m|
    ensures tables <= 1024 ==> forall w | 0 <= w < |m| && 4 * w < 0x10_0000 :: m'[w] == m[w]
    ensures tables <= 254 ==> forall w | 0 <= w < |m| && 0x1f_f000 <= 4 * w :: m'[w] == m[w]
  {
  }
}
