/** The page bitmap (kernel/mm/page.c: init_page_bit_map, get_pages, free_pages), as written.

    A byte is its eight bits, most significant first, so that bit q of byte k stands for page
    8*k + q, counted from the bitmap's own page at 5MB.

    get_pages looks at the first byte only: its pointer into the bitmap never advances and its mask
    is never reset.  The lemmas say exactly which calls it serves and what the others return. */
module PageBitmap {
  import opened Common
  import opened Paging

  const BITMAP := 0x50_0000

  type Byte = b: seq<bool> | |b| == 8 witness seq(8, i => false)

  /** The byte whose bits lo..hi-1 are set; the range may stick out on either side. */
  function Bits(lo: int, hi: int): (b: Byte)
    ensures forall q | 0 <= q < 8 :: b[q] <==> lo <= q < hi
  {
    seq(8, q => lo <= q < hi)
  }

  function ShiftLeft(b: Byte): Byte {
    b[1..] + [false]
  }

  function And(a: Byte, b: Byte): Byte {
    seq(8, q requires 0 <= q < 8 => a[q] && b[q])
  }

  function Or(a: Byte, b: Byte): Byte {
    seq(8, q requires 0 <= q < 8 => a[q] || b[q])
  }

  function Not(a: Byte): Byte {
    seq(8, q requires 0 <= q < 8 => !a[q])
  }

  const ZERO: Byte := [false, false, false, false, false, false, false, false]

  lemma ShiftedBits(lo: int, hi: int)
    requires hi <= 8
    ensures ShiftLeft(Bits(lo, hi)) == Bits(lo - 1, hi - 1)
  {
  }

  /** The pages lo..hi-1 are free. */
  predicate Clear(b: Byte, lo: int, hi: int) {
    forall q | 0 <= q < 8 && lo <= q < hi :: !b[q]
  }

  /** The n pages from p on are free, as far as the byte tells. */
  predicate FreeRun(b: Byte, p: int, n: nat) {
    Clear(b, p, p + n)
  }

  lemma MaskTest(b: Byte, lo: int, hi: int)
    ensures And(b, Bits(lo, hi)) == ZERO <==> Clear(b, lo, hi)
  {
    var a := And(b, Bits(lo, hi));
    assert a == ZERO ==> forall q | 0 <= q < 8 :: !a[q];
    if Clear(b, lo, hi) {
      assert forall q | 0 <= q < 8 :: !a[q];
      assert a == ZERO;
    } else {
      var q :| 0 <= q < 8 && lo <= q < hi && b[q];
      assert a[q] && !ZERO[q];
    }
  }

  /** The loop that builds the mask of the lowest n bits. */
  method Mask(n: nat) returns (select: Byte)
    requires n <= 8
    ensures select == Bits(8 - n, 8)
  {
    select := ZERO;
    assert select == Bits(8, 8);
    for i := 0 to n
      invariant select == Bits(8 - i, 8)
    {
      ShiftedBits(8 - i, 8);
      select := Or(ShiftLeft(select), Bits(7, 8));
      assert select == Bits(8 - (i + 1), 8);
    }
  }

  // ----- get_pages -----

  datatype Outcome = Panic | Null | Page(index: nat)

  /** The highest page from which n pages of a byte are free, leaving out the byte's first page. */
  function FindRun(b: Byte, n: nat, from: nat): (r: Option<nat>)
    requires from + n <= 8
    ensures r.Some? ==> 1 <= r.value <= from && FreeRun(b, r.value, n)
    ensures r.Some? ==> forall p | r.value < p <= from :: !FreeRun(b, p, n)
    ensures r.None? ==> forall p | 1 <= p <= from :: !FreeRun(b, p, n)
  {
    if from == 0 then None
    else if FreeRun(b, from, n) then Some(from)
    else FindRun(b, n, from - 1)
  }

  /** The page a call for n pages returns once its mask has been shifted out entirely. */
  function Phantom(n: nat): nat
    requires 1 <= n <= 7
  {
    8 / (8 - n) * 8 + 8 - 8 % (8 - n) - n
  }

  lemma PhantomPosition(n: nat, i: nat, bytein: nat)
    requires 1 <= n <= 7 && bytein < 8 - n && i * (8 - n) + bytein == 8
    ensures i * 8 + (8 - bytein - n) == Phantom(n)
  {
    if n == 1 {
    } else if n == 2 {
    } else if n == 3 {
    } else if n == 4 {
    } else if n == 5 {
    } else if n == 6 {
    } else {
    }
  }

  /** What get_pages(n) returns when the first byte is b and the bitmap has cnt bytes. */
  function Answer(b: Byte, cnt: nat, n: nat): Outcome {
    if n > 8 then Panic
    else if n == 8 || cnt == 0 then Null
    else if n == 0 then Page(8)
    else match FindRun(b, n, 8 - n)
      case Some(p) => Page(p)
      case None => if cnt * (8 - n) > 8 then Page(Phantom(n)) else Null
  }

  /** The guard of the branch that serves a call: a free run in bits 0..6 of the first byte. */
  predicate Servable(b: Byte, n: nat) {
    1 <= n <= 7 && FindRun(b, n, 8 - n).Some?
  }

  /** The first byte after get_pages(n) and ... */
  function AfterGet(b: Byte, n: nat): Byte {
    if Servable(b, n) then Or(b, Bits(FindRun(b, n, 8 - n).value, FindRun(b, n, 8 - n).value + n)) else b
  }

  /** ... the byte free_pages looks up after it has cleared n pages from page `index`. */
  function AfterFree(b: Byte, index: nat, n: nat): Byte {
    And(b, Not(Bits(index % 8, index % 8 + n)))
  }

  /** The j-th mask selects n pages from page 8-n-j of the first byte; none earlier was free. */
  ghost predicate Tried(b: Byte, n: nat, j: nat) {
    forall p | 8 - n - j < p <= 8 - n :: !FreeRun(b, p, n)
  }

  lemma FirstBitBlocks(b: Byte, p: int, n: nat)
    ensures b[0] && p <= 0 < p + n ==> !FreeRun(b, p, n)
  {
  }

  lemma Served(b: Byte, cnt: nat, n: nat, i: nat, bytein: nat, j: nat)
    requires 1 <= n <= 7 && b[0] && i < cnt && bytein < 8 - n && j == i * (8 - n) + bytein && j <= 8
    requires Tried(b, n, j) && FreeRun(b, 8 - n - j, n)
    ensures Answer(b, cnt, n) == Page(i * 8 + (8 - bytein - n))
    ensures FindRun(b, n, 8 - n).Some? ==> i == 0 && j < 8 - n
    ensures FindRun(b, n, 8 - n).None? ==> j == 8
  {
    if j < 8 - n {
      assert i > 0 ==> i * (8 - n) >= 8 - n;
    } else {
      FirstBitBlocks(b, 8 - n - j, n);
      PhantomPosition(n, i, bytein);
      assert (i + 1) * (8 - n) == i * (8 - n) + (8 - n) > 8;
      assert cnt * (8 - n) >= (i + 1) * (8 - n);
    }
  }

  lemma NotServed(b: Byte, cnt: nat, n: nat)
    requires 1 <= n <= 7 && 0 < cnt && cnt * (8 - n) <= 8 && Tried(b, n, cnt * (8 - n))
    ensures Answer(b, cnt, n) == Null
  {
    assert cnt * (8 - n) >= 8 - n;
  }

  /** get_pages: a free run of bits 0..6 of the first byte is found, highest page first, and marked;
      without one nothing is marked, and the answer is 0 or a page whose bit was never looked at. */
  method GetPages(bitmap: array<Byte>, page_bit_map_cnt: nat, n: nat) returns (r: Outcome)
    requires page_bit_map_cnt <= bitmap.Length && 0 < bitmap.Length && bitmap[0][0]
    modifies bitmap
    ensures r == Answer(old(bitmap[0]), page_bit_map_cnt, n)
    ensures bitmap[1..] == old(bitmap[1..])
    ensures bitmap[0] == if page_bit_map_cnt > 0 then AfterGet(old(bitmap[0]), n) else old(bitmap[0])
  {
    if n > 8 {
      return Panic;
    }
    var select := Mask(n);
    ghost var j := 0;
    ghost var was := bitmap[0];
    for i := 0 to page_bit_map_cnt
      invariant bitmap[..] == old(bitmap[..])
      invariant j == i * (8 - n) && (1 <= n ==> j <= 8) && (n == 0 ==> i == 0)
      invariant select == Bits(8 - n - j, 8 - j) && Tried(was, n, j)
    {
      var bytein := 0;
      while bytein + n < 8
        invariant 0 <= bytein <= 8 - n && bitmap[..] == old(bitmap[..])
        invariant j == i * (8 - n) + bytein && (1 <= n ==> j <= 8) && (n == 0 ==> i == 0 && bytein == 0)
        invariant select == Bits(8 - n - j, 8 - j) && Tried(was, n, j)
      {
        MaskTest(was, 8 - n - j, 8 - j);
        assert FreeRun(was, 8 - n - j, n) == Clear(was, 8 - n - j, 8 - j);
        if And(bitmap[0], select) == ZERO {
          if n > 0 {
            Served(was, page_bit_map_cnt, n, i, bytein, j);
          }
          bitmap[0] := Or(bitmap[0], select);
          assert select == ZERO ==> Or(was, select) == was;
          return Page(i * 8 + (8 - bytein - n));
        } else {
          ShiftedBits(8 - n - j, 8 - j);
          select := ShiftLeft(select);
        }
        bytein := bytein + 1;
        j := j + 1;
      }
      assert (i + 1) * (8 - n) == i * (8 - n) + (8 - n);
    }
    if 1 <= n <= 7 && page_bit_map_cnt > 0 {
      NotServed(was, page_bit_map_cnt, n);
    }
    return Null;
  }

  // ----- free_pages -----

  /** free_pages for a block of n pages from page `index`: it divides the page number by the page
      size where it means the eight pages of a byte, so every page below 4096 is looked up in the
      first byte. */
  method FreePages(bitmap: array<Byte>, index: nat, n: nat)
    requires index / PAGE_SIZE < bitmap.Length && index % 8 + n <= 8
    modifies bitmap
    ensures bitmap[..] == old(bitmap[..])[index / PAGE_SIZE := AfterFree(old(bitmap[index / PAGE_SIZE]), index, n)]
  {
    var select := Mask(n);
    var offset := index / PAGE_SIZE;
    for i := 0 to 8 - index % 8 - n
      invariant select == Bits(8 - n - i, 8 - i) && bitmap[..] == old(bitmap[..])
    {
      ShiftedBits(8 - n - i, 8 - i);
      select := ShiftLeft(select);
    }
    assert select == Bits(index % 8, index % 8 + n);
    ghost var was := bitmap[..];
    bitmap[offset] := And(bitmap[offset], Not(select));
    assert bitmap[..] == was[offset := bitmap[offset]];
  }

  // ----- Runs -----

  /** A block of n pages starting at page `page`. */
  datatype Block = Block(page: nat, n: nat)

  /** get_pages(n); free_pages of the k-th live block. */
  datatype Op = Get(n: nat) | Free(k: nat)

  /** The bitmap's bytes and the blocks handed out and not yet given back. */
  datatype State = State(bits: seq<Byte>, live: seq<Block>)

  predicate Apart(a: Block, b: Block) {
    a.page + a.n <= b.page || b.page + b.n <= a.page
  }

  predicate Holds(b: Block, p: nat) {
    b.page <= p < b.page + b.n
  }

  predicate Held(live: seq<Block>, p: nat) {
    exists k :: 0 <= k < |live| && Holds(live[k], p)
  }

  /** The bit of page p. */
  predicate Bit(bits: seq<Byte>, p: nat)
    requires p < 8 * |bits|
  {
    bits[p / 8][p % 8]
  }

  /** The pages of one byte of the bitmap, without the byte's first page. */
  predicate InByte(b: Block, cnt: nat) {
    1 <= b.n && 1 <= b.page % 8 && b.page % 8 + b.n <= 8 && b.page / 8 < cnt
  }

  /** The bitmap's own page is marked, and every live block lies in one byte of the bitmap. */
  predicate Placed(s: State) {
    |s.bits| > 0 && s.bits[0][0] && forall i | 0 <= i < |s.live| :: InByte(s.live[i], |s.bits|)
  }

  predicate AllApart(live: seq<Block>) {
    forall i, j | 0 <= i < j < |live| :: Apart(live[i], live[j])
  }

  /** The marked pages are the bitmap's own page and those of the live blocks. */
  ghost predicate MarksAreHeld(s: State) {
    forall p: nat | p < 8 * |s.bits| :: Bit(s.bits, p) <==> p == 0 || Held(s.live, p)
  }

  ghost predicate Sound(s: State) {
    Placed(s) && AllApart(s.live) && MarksAreHeld(s)
  }

  function Without(live: seq<Block>, k: nat): (r: seq<Block>)
    requires k < |live|
    ensures |r| == |live| - 1
    ensures forall i | 0 <= i < |r| :: r[i] == live[if i < k then i else i + 1]
  {
    live[..k] + live[k + 1..]
  }

  predicate Possible(s: State, op: Op) {
    match op
    case Get(n) => 1 <= n <= 8
    case Free(k) => k < |s.live|
  }

  /** The effects of get_pages and free_pages on the bitmap, and the caller's list of blocks. */
  function Do(s: State, op: Op): State
    requires Placed(s) && Possible(s, op)
  {
    match op
    case Get(n) =>
      (match Answer(s.bits[0], |s.bits|, n)
       case Page(p) => State(s.bits[0 := AfterGet(s.bits[0], n)], s.live + [Block(p, n)])
       case _ => s)
    case Free(k) =>
      var b := s.live[k];
      SmallerQuotient(b.page);
      State(s.bits[b.page / PAGE_SIZE := AfterFree(s.bits[b.page / PAGE_SIZE], b.page, b.n)], Without(s.live, k))
  }

  lemma SmallerQuotient(p: nat)
    ensures p / PAGE_SIZE <= p / 8
    ensures p / PAGE_SIZE == p / 8 <==> p < 8
  {
  }

  /** Whether a call does what its caller expects: the branch guard of get_pages for a free run in the
      first byte, or a scan too short to shift the mask out; for free_pages, the right byte. */
  predicate Good(s: State, op: Op)
    requires Placed(s) && Possible(s, op)
  {
    match op
    case Get(n) => Servable(s.bits[0], n) || |s.bits| * (8 - n) <= 8
    case Free(k) => s.live[k].page / PAGE_SIZE == s.live[k].page / 8
  }

  // The pages of a byte.

  lemma PageInByte(i: nat, q: nat, n: nat, p: nat)
    requires q + n <= 8
    ensures Holds(Block(8 * i + q, n), p) <==> p / 8 == i && q <= p % 8 < q + n
  {
  }

  lemma ByteOf(i: nat, q: nat)
    requires q < 8
    ensures (8 * i + q) / 8 == i && (8 * i + q) % 8 == q
  {
  }

  lemma HeldWithout(live: seq<Block>, k: nat, p: nat)
    requires k < |live| && AllApart(live)
    ensures Held(Without(live, k), p) <==> Held(live, p) && !Holds(live[k], p)
  {
    var r := Without(live, k);
    if Held(live, p) && !Holds(live[k], p) {
      var i :| 0 <= i < |live| && Holds(live[i], p);
      assert Holds(r[if i < k then i else i - 1], p);
    }
    if Held(r, p) {
      var i :| 0 <= i < |r| && Holds(r[i], p);
      var j := if i < k then i else i + 1;
      assert Holds(live[j], p) && if j < k then Apart(live[j], live[k]) else Apart(live[k], live[j]);
    }
  }

  lemma HeldBehind(live: seq<Block>, b: Block, p: nat)
    ensures Held(live + [b], p) <==> Held(live, p) || Holds(b, p)
  {
    var r := live + [b];
    if Held(live, p) {
      var i :| 0 <= i < |live| && Holds(live[i], p);
      assert Holds(r[i], p);
    }
    assert Holds(r[|live|], p) <==> Holds(b, p);
    forall i | 0 <= i < |live| && Holds(r[i], p) ensures Held(live, p) {
      assert Holds(live[i], p);
    }
  }

  /** Marking a free run of one byte and handing it out. */
  lemma MarkKeepsSound(s: State, i: nat, q: nat, n: nat)
    requires Sound(s) && i < |s.bits| && 1 <= q && 1 <= n && q + n <= 8 && FreeRun(s.bits[i], q, n)
    ensures Sound(State(s.bits[i := Or(s.bits[i], Bits(q, q + n))], s.live + [Block(8 * i + q, n)]))
  {
    hide FreeRun, Held;
    var b := Block(8 * i + q, n);
    var s' := State(s.bits[i := Or(s.bits[i], Bits(q, q + n))], s.live + [b]);
    ByteOf(i, q);
    forall k | 0 <= k < |s.live| ensures Apart(s.live[k], b) {
      FreeRunIsApart(s, i, q, n, k);
    }
    forall p: nat | p < 8 * |s.bits| ensures Bit(s'.bits, p) <==> p == 0 || Held(s'.live, p) {
      PageInByte(i, q, n, p);
      HeldBehind(s.live, b, p);
      assert Bit(s.bits, p) <==> p == 0 || Held(s.live, p);
    }
  }

  lemma FreeRunIsApart(s: State, i: nat, q: nat, n: nat, k: nat)
    requires Sound(s) && i < |s.bits| && 1 <= n && q + n <= 8 && FreeRun(s.bits[i], q, n) && k < |s.live|
    ensures Apart(s.live[k], Block(8 * i + q, n))
  {
    var a, b := s.live[k], Block(8 * i + q, n);
    var p := if a.page < b.page then b.page else a.page;
    PageInByte(i, q, n, p);
    assert InByte(a, |s.bits|);
    assert Holds(a, p) ==> Held(s.live, p);
    assert Holds(b, p) ==> !Bit(s.bits, p);
  }

  /** Unmarking the pages of a block in their byte and dropping the block. */
  lemma UnmarkKeepsSound(s: State, k: nat)
    requires Sound(s) && k < |s.live|
    ensures s.live[k].page / 8 < |s.bits|
    ensures var b := s.live[k];
      Sound(State(s.bits[b.page / 8 := AfterFree(s.bits[b.page / 8], b.page, b.n)], Without(s.live, k)))
  {
    hide Held;
    var b := s.live[k];
    assert InByte(b, |s.bits|);
    var s' := State(s.bits[b.page / 8 := AfterFree(s.bits[b.page / 8], b.page, b.n)], Without(s.live, k));
    forall p: nat | p < 8 * |s.bits| ensures Bit(s'.bits, p) <==> p == 0 || Held(s'.live, p) {
      PageInByte(b.page / 8, b.page % 8, b.n, p);
      assert b == Block(8 * (b.page / 8) + b.page % 8, b.n);
      HeldWithout(s.live, k, p);
      assert Bit(s.bits, p) <==> p == 0 || Held(s.live, p);
    }
    assert AllApart(s'.live);
  }

  function Zeroed(n: nat): (r: seq<Byte>)
    ensures |r| == n && forall i | 0 <= i < n :: r[i] == ZERO
  {
    if n == 0 then [] else Zeroed(n - 1) + [ZERO]
  }

  /** The state init_page_bit_map leaves. */
  function Fresh(cnt: nat): State
    requires cnt > 0
  {
    State([Bits(0, 1)] + Zeroed(cnt - 1), [])
  }

  lemma FreshIsSound(cnt: nat)
    requires cnt > 0
    ensures Sound(Fresh(cnt))
  {
    forall p: nat | p < 8 * cnt ensures Bit(Fresh(cnt).bits, p) <==> p == 0 {
      assert p / 8 == 0 ==> p % 8 == p;
    }
  }

  lemma PhantomBits(n: nat)
    requires 1 <= n <= 7
    ensures Phantom(n) / 8 == 8 / (8 - n) && 1 <= Phantom(n) % 8 && Phantom(n) % 8 + n <= 8 < Phantom(n) < PAGE_SIZE
  {
    if n == 1 {
    } else if n == 2 {
    } else if n == 3 {
    } else if n == 4 {
    } else if n == 5 {
    } else if n == 6 {
    } else {
    }
  }

  lemma PhantomInBitmap(n: nat, cnt: nat)
    requires 1 <= n <= 7 && cnt * (8 - n) > 8
    ensures InByte(Block(Phantom(n), n), cnt)
  {
    PhantomBits(n);
    var d := 8 - n;
    var q := 8 / d;
    assert q * d <= 8 < cnt * d;
    assert (cnt - q) * d > 0;
  }

  /** Whatever is called, every block ever handed out lies in one byte of the bitmap and never holds
      a page whose number is divisible by 8. */
  lemma StepKeepsPlaced(s: State, op: Op)
    requires Placed(s) && Possible(s, op)
    ensures Placed(Do(s, op)) && |Do(s, op).bits| == |s.bits|
  {
    match op
    case Get(n) => GetKeepsPlaced(s, n);
    case Free(k) => FreeKeepsPlaced(s, k);
  }

  lemma GetKeepsPlaced(s: State, n: nat)
    requires Placed(s) && 1 <= n <= 8
    ensures Placed(Do(s, Get(n))) && |Do(s, Get(n)).bits| == |s.bits|
  {
    hide FindRun, InByte, Clear, Phantom;
    if n < 8 && Servable(s.bits[0], n) {
      var q := FindRun(s.bits[0], n, 8 - n).value;
      PlainBlock(q, n, |s.bits|);
    } else if n < 8 && |s.bits| * (8 - n) > 8 {
      PhantomInBitmap(n, |s.bits|);
    }
  }

  lemma PlainBlock(q: nat, n: nat, cnt: nat)
    requires 1 <= q && 1 <= n && q + n <= 8 && cnt > 0
    ensures InByte(Block(q, n), cnt)
  {
  }

  lemma FreeKeepsPlaced(s: State, k: nat)
    requires Placed(s) && k < |s.live|
    ensures Placed(Do(s, Free(k))) && |Do(s, Free(k)).bits| == |s.bits|
  {
    assert InByte(s.live[k], |s.bits|);
  }

  lemma ServedGet(s: State, n: nat)
    requires Placed(s) && Servable(s.bits[0], n)
    ensures var p := FindRun(s.bits[0], n, 8 - n).value;
      Do(s, Get(n)) == State(s.bits[0 := Or(s.bits[0], Bits(p, p + n))], s.live + [Block(p, n)])
  {
  }

  /** A call that is not served but whose mask is shifted out within the scan. */
  lemma UnservedGet(s: State, n: nat)
    requires Placed(s) && 1 <= n <= 7 && !Good(s, Get(n))
    ensures Do(s, Get(n)) == State(s.bits, s.live + [Block(Phantom(n), n)])
  {
    assert s.bits[0 := s.bits[0]] == s.bits;
  }

  /** What is wrong with the block such a call hands out: each of its pages is held twice, or stays
      unmarked although it is held. */
  lemma UnservedPages(s: State, n: nat, p: nat)
    requires Sound(s) && 1 <= n <= 7 && !Good(s, Get(n)) && Holds(Block(Phantom(n), n), p)
    ensures p < 8 * |s.bits|
    ensures Held(s.live, p) || !Bit(Do(s, Get(n)).bits, p)
  {
    PhantomInBitmap(n, |s.bits|);
    PageInByte(Phantom(n) / 8, Phantom(n) % 8, n, p);
    UnservedGet(s, n);
  }

  lemma UnservedIsUnsound(s: State, n: nat)
    requires Sound(s) && 1 <= n <= 7 && !Good(s, Get(n))
    ensures !(AllApart(Do(s, Get(n)).live) && MarksAreHeld(Do(s, Get(n))))
  {
    var s', b := Do(s, Get(n)), Block(Phantom(n), n);
    UnservedGet(s, n);
    UnservedPages(s, n, b.page);
    if Held(s.live, b.page) {
      var k :| 0 <= k < |s.live| && Holds(s.live[k], b.page);
      assert !Apart(s'.live[k], s'.live[|s.live|]);
    } else {
      assert Holds(s'.live[|s.live|], b.page);
    }
  }

  lemma WrongByteIsUnsound(s: State, k: nat)
    requires Sound(s) && k < |s.live| && !Good(s, Free(k))
    ensures !MarksAreHeld(Do(s, Free(k)))
  {
    var b, s' := s.live[k], Do(s, Free(k));
    SmallerQuotient(b.page);
    assert InByte(b, |s.bits|) && Holds(b, b.page);
    assert Bit(s.bits, b.page) && Bit(s'.bits, b.page);
    HeldWithout(s.live, k, b.page);
  }

  /** Exactly when a call is sound.  A failing get leaves overlapping blocks or unmarked pages in
      use, a failing free a marked page that nobody holds. */
  lemma StepIsSoundIffGood(s: State, op: Op)
    requires Sound(s) && Possible(s, op)
    ensures Sound(Do(s, op)) <==> Good(s, op)
  {
    match op
    case Get(n) =>
      if Servable(s.bits[0], n) {
        ServedGet(s, n);
        MarkKeepsSound(s, 0, FindRun(s.bits[0], n, 8 - n).value, n);
      } else if !Good(s, op) {
        UnservedIsUnsound(s, n);
      } else {
        assert Do(s, op) == s;
      }
    case Free(k) =>
      if Good(s, op) {
        UnmarkKeepsSound(s, k);
      } else {
        WrongByteIsUnsound(s, k);
      }
  }

  // Runs of calls with any arguments.

  predicate Calls(s: State, ops: seq<Op>)
    requires Placed(s)
    decreases |ops|
  {
    ops == [] || (Possible(s, ops[0]) && Calls(After(s, ops[0]), ops[1..]))
  }

  function After(s: State, op: Op): (s': State)
    requires Placed(s) && Possible(s, op)
    ensures s' == Do(s, op) && Placed(s') && |s'.bits| == |s.bits|
  {
    StepKeepsPlaced(s, op);
    Do(s, op)
  }

  function RunOps(s: State, ops: seq<Op>): State
    requires Placed(s) && Calls(s, ops)
    decreases |ops|
  {
    if ops == [] then s else RunOps(After(s, ops[0]), ops[1..])
  }

  predicate GoodRun(s: State, ops: seq<Op>)
    requires Placed(s) && Calls(s, ops)
    decreases |ops|
  {
    ops == [] || (Good(s, ops[0]) && GoodRun(After(s, ops[0]), ops[1..]))
  }

  /** Every state on the way is sound. */
  ghost predicate AlwaysSound(s: State, ops: seq<Op>)
    requires Placed(s) && Calls(s, ops)
    decreases |ops|
  {
    Sound(s) && (ops == [] || AlwaysSound(After(s, ops[0]), ops[1..]))
  }

  /** A run from a sound state stays sound throughout if and only if all its calls are good. */
  lemma {:induction false} RunIsSoundIffGood(s: State, ops: seq<Op>)
    requires Sound(s) && Calls(s, ops)
    ensures AlwaysSound(s, ops) <==> GoodRun(s, ops)
    decreases |ops|
  {
    if ops != [] {
      StepIsSoundIffGood(s, ops[0]);
      if Good(s, ops[0]) {
        RunIsSoundIffGood(After(s, ops[0]), ops[1..]);
      }
    }
  }

  /** Over any run, good or not: no page whose number is divisible by 8 is ever handed out. */
  lemma {:induction false} FirstPagesStayUnused(s: State, ops: seq<Op>, p: nat)
    requires Placed(s) && Calls(s, ops) && Held(RunOps(s, ops).live, p)
    ensures p % 8 != 0 && p < 8 * |s.bits|
    decreases |ops|
  {
    if ops == [] {
      var k :| 0 <= k < |s.live| && Holds(s.live[k], p);
      var b := s.live[k];
      assert InByte(b, |s.bits|) && b == Block(8 * (b.page / 8) + b.page % 8, b.n);
      PageInByte(b.page / 8, b.page % 8, b.n, p);
    } else {
      FirstPagesStayUnused(After(s, ops[0]), ops[1..], p);
    }
  }

  /** Until the first get that is not served, every free finds the right byte: from a fresh bitmap
      only the gets decide. */
  predicate GoodGets(s: State, ops: seq<Op>)
    requires Placed(s) && Calls(s, ops)
    decreases |ops|
  {
    ops == [] || ((ops[0].Get? ==> Good(s, ops[0])) && GoodGets(After(s, ops[0]), ops[1..]))
  }

  lemma {:induction false} OnlyGetsDecide(s: State, ops: seq<Op>)
    requires Placed(s) && Calls(s, ops) && forall i | 0 <= i < |s.live| :: s.live[i].page < 8
    ensures GoodGets(s, ops) <==> GoodRun(s, ops)
    decreases |ops|
  {
    if ops != [] {
      if ops[0].Free? {
        SmallerQuotient(s.live[ops[0].k].page);
      }
      if Good(s, ops[0]) {
        OnlyGetsDecide(After(s, ops[0]), ops[1..]);
      }
    }
  }

  /** Freeing what was just handed out restores bitmap and blocks. */
  lemma FreeUndoesGet(s: State, n: nat)
    requires Sound(s) && Servable(s.bits[0], n)
    ensures Do(After(s, Get(n)), Free(|s.live|)) == s
  {
    var p := FindRun(s.bits[0], n, 8 - n).value;
    var s1 := After(s, Get(n));
    assert FreeRun(s.bits[0], p, n);
    SmallerQuotient(p);
    assert AfterFree(Or(s.bits[0], Bits(p, p + n)), p, n) == s.bits[0];
    assert s1.bits[0 := s.bits[0]] == s.bits;
    assert Without(s1.live, |s.live|) == s.live;
  }

  /** The same unserved call made twice hands out the same block twice. */
  lemma UnservedGetRepeats(s: State, n: nat)
    requires Placed(s) && 1 <= n <= 7 && !Good(s, Get(n))
    ensures Do(After(s, Get(n)), Get(n)).live == s.live + [Block(Phantom(n), n), Block(Phantom(n), n)]
  {
    UnservedGet(s, n);
    UnservedGet(After(s, Get(n)), n);
  }

  /** Giving such a block back takes the mark off a page that another live block still holds. */
  lemma FreeingPhantomUnmarksOthers(s: State, n: nat) returns (q: nat)
    requires Sound(s) && 1 <= n <= 7 && !Good(s, Get(n))
    ensures var s2 := Do(After(s, Get(n)), Free(|s.live|));
      s2.live == s.live && 1 <= q < 8 && Held(s.live, q) && Bit(s.bits, q) && !Bit(s2.bits, q)
  {
    PhantomBits(n);
    UnservedGet(s, n);
    var p := Phantom(n) % 8;
    assert !FreeRun(s.bits[0], p, n);
    q :| p <= q < p + n && s.bits[0][q];
    assert Bit(s.bits, q);
    assert Without(s.live + [Block(Phantom(n), n)], |s.live|) == s.live;
  }

  /** The byte whose first page and pages m to 7 are marked. */
  function FilledFrom(m: nat): Byte {
    seq(8, q => q == 0 || m <= q)
  }

  lemma {:induction false} TopRun(m: nat, n: nat, from: nat)
    requires 1 <= n && n < m <= 8 && m - n <= from && from + n <= 8
    ensures FindRun(FilledFrom(m), n, from) == Some(m - n)
    decreases from
  {
    if from > m - n {
      assert FilledFrom(m)[from + n - 1];
      TopRun(m, n, from - 1);
    }
  }

  /** Blocks are taken from the top of the byte downwards. */
  lemma GetFromTop(s: State, m: nat, n: nat)
    requires Placed(s) && 1 <= n <= 7 && n < m <= 8 && s.bits[0] == FilledFrom(m)
    ensures Good(s, Get(n))
    ensures After(s, Get(n)) == State(s.bits[0 := FilledFrom(m - n)], s.live + [Block(m - n, n)])
  {
    TopRun(m, n, 8 - n);
    assert Or(FilledFrom(m), Bits(m - n, m)) == FilledFrom(m - n);
  }

  /** The kernel's own boot reaches a call that is not served: thread_creat asks for one page and for
      three, and init_thread creates two threads.  The second stack is three pages that stay
      unmarked. */
  lemma SecondThreadIsUnserved(cnt: nat)
    requires cnt >= 2
    ensures var ops := [Get(1), Get(3), Get(1)];
      && Placed(Fresh(cnt)) && Calls(Fresh(cnt), ops) && GoodRun(Fresh(cnt), ops)
      && var s := RunOps(Fresh(cnt), ops);
      && Sound(s) && s.live == [Block(7, 1), Block(4, 3), Block(3, 1)] && !Good(s, Get(3))
      && Do(s, Get(3)).live == s.live + [Block(10, 3)]
      && forall p: nat | 10 <= p < 13 :: p < 8 * cnt && !Bit(Do(s, Get(3)).bits, p)
  {
    hide FindRun, Sound;
    var s0 := Fresh(cnt);
    FreshIsSound(cnt);
    assert s0.bits[0] == Bits(0, 1) == FilledFrom(8);
    GetFromTop(s0, 8, 1);
    var s1 := After(s0, Get(1));
    GetFromTop(s1, 7, 3);
    var s2 := After(s1, Get(3));
    GetFromTop(s2, 4, 1);
    var s3 := After(s2, Get(1));
    StepIsSoundIffGood(s0, Get(1));
    StepIsSoundIffGood(s1, Get(3));
    StepIsSoundIffGood(s2, Get(1));
    ThreeCalls(s0, Get(1), Get(3), Get(1));
    NoThreeLeft();
    UnservedGet(s3, 3);
    assert s3.bits[1] == ZERO;
  }

  lemma GoodCallFirst(s: State, op: Op, ops: seq<Op>)
    requires Placed(s) && Possible(s, op) && Good(s, op) && Calls(After(s, op), ops) && GoodRun(After(s, op), ops)
    ensures Calls(s, [op] + ops) && GoodRun(s, [op] + ops) && RunOps(s, [op] + ops) == RunOps(After(s, op), ops)
  {
    assert ([op] + ops)[1..] == ops;
  }

  lemma ThreeCalls(s: State, a: Op, b: Op, c: Op)
    requires Placed(s) && Possible(s, a) && Possible(After(s, a), b) && Possible(After(After(s, a), b), c)
    requires Good(s, a) && Good(After(s, a), b) && Good(After(After(s, a), b), c)
    ensures Calls(s, [a, b, c]) && GoodRun(s, [a, b, c]) && RunOps(s, [a, b, c]) == After(After(After(s, a), b), c)
  {
    hide Do, Good, Placed, Possible;
    var s1 := After(s, a);
    var s2 := After(s1, b);
    GoodCallFirst(s2, c, []);
    GoodCallFirst(s1, b, [c]);
    GoodCallFirst(s, a, [b, c]);
    assert [c] + [] == [c] && [b] + [c] == [b, c] && [a] + [b, c] == [a, b, c];
  }

  lemma NoThreeLeft()
    ensures FindRun(FilledFrom(3), 3, 5) == None
  {
    var b := FilledFrom(3);
    assert b[3] && b[5];
    assert forall p | 1 <= p <= 5 :: !FreeRun(b, p, 3);
  }

  // ----- Where the pages are -----

  function Longest(map_: seq<Region>): (len: nat)
    ensures forall i | 0 <= i < |map_| && map_[i].kind == 1 :: map_[i].lenthlow <= len
    ensures len == 0 || exists i :: 0 <= i < |map_| && map_[i].kind == 1 && map_[i].lenthlow == len
  {
    if map_ == [] then 0 else
    var m, n := Longest(map_[..|map_| - 1]), |map_| - 1;
    if map_[n].kind == 1 && m < map_[n].lenthlow then map_[n].lenthlow else m
  }

  /** page_cnt and page_bit_map_cnt as init_page_bit_map computes them. */
  function PageCnt(lenth: nat): nat {
    ((lenth - BITMAP) % U32 + PAGE_SIZE - 1) % U32 / PAGE_SIZE
  }

  function BitMapCnt(lenth: nat): nat {
    (PageCnt(lenth) + 8 - 1) / 8
  }

  /** The first loop of init_page_bit_map. */
  method FindLongest(map_: seq<Region>) returns (lenth: nat)
    requires Regions(map_)
    ensures lenth == Longest(map_) < U32
  {
    lenth := 0;
    for i := 0 to |map_|
      invariant lenth == Longest(map_[..i]) && lenth < U32
    {
      assert map_[..i + 1][..i] == map_[..i];
      if map_[i].kind == 1 && lenth < map_[i].lenthlow {
        lenth := map_[i].lenthlow;
      }
    }
    assert map_[..|map_|] == map_;
  }

  /** init_page_bit_map: the bytes in use are zero but for the bit of the bitmap's own page. */
  method InitPageBitMap(bitmap: array<Byte>, map_: seq<Region>) returns (page_bit_map_cnt: nat)
    requires Regions(map_) && 0 < bitmap.Length && BitMapCnt(Longest(map_)) <= bitmap.Length
    modifies bitmap
    ensures page_bit_map_cnt == BitMapCnt(Longest(map_))
    ensures bitmap[0] == Bits(0, 1)
    ensures 0 < page_bit_map_cnt ==> bitmap[..page_bit_map_cnt] == Fresh(page_bit_map_cnt).bits
    ensures forall k | 1 <= k < bitmap.Length :: bitmap[k] == if k < page_bit_map_cnt then ZERO else old(bitmap[k])
  {
    var lenth := FindLongest(map_);
    var page_cnt := ((lenth - BITMAP) % U32 + PAGE_SIZE - 1) % U32 / PAGE_SIZE;
    page_bit_map_cnt := (page_cnt + 8 - 1) / 8;
    for i := 0 to page_bit_map_cnt
      invariant forall k | 0 <= k < bitmap.Length :: bitmap[k] == if k < i then ZERO else old(bitmap[k])
    {
      bitmap[i] := ZERO;
    }
    bitmap[0] := Bits(0, 1);
  }

  lemma PagesEnd(len: nat, p: nat)
    requires BITMAP <= len && len + PAGE_SIZE - 1 < U32 && p < 8 * BitMapCnt(len)
    ensures BITMAP + PAGE_SIZE * (p + 1) < len + 9 * PAGE_SIZE
  {
    var pages := PageCnt(len);
    assert pages == (len - BITMAP + PAGE_SIZE - 1) / PAGE_SIZE;
    assert PAGE_SIZE * pages < len - BITMAP + PAGE_SIZE;
    assert 8 * BitMapCnt(len) < pages + 8;
  }

  /** If the last usable region is also a longest one, starts between 1MB and 5MB and is at least 5MB
      long, then every page the bitmap's bytes can denote is memory of that region and identity-mapped
      by set_page. */
  lemma PagesAreMappedMemory(map_: seq<Region>, p: nat)
    requires Regions(map_) && map_[LastUsable(map_)].kind == 1
    requires map_[LastUsable(map_)].lenthlow == Longest(map_)
    requires 0x10_0000 <= map_[LastUsable(map_)].baselow <= 0x50_0000 <= Longest(map_)
    requires map_[LastUsable(map_)].baselow + Longest(map_) + PAGE_SIZE - 1 < U32
    requires p < 8 * BitMapCnt(Longest(map_))
    ensures var first, last := 0x50_0000 + 0x1000 * p, 0x50_0000 + 0x1000 * p + 0xfff;
      && map_[LastUsable(map_)].baselow <= first
      && last < map_[LastUsable(map_)].baselow + map_[LastUsable(map_)].lenthlow
      && last < TABLE_SPAN * TablesFor(map_)
  {
    TablesFit(map_);
    PagesEnd(Longest(map_), p);
  }

  /** There is a bit for every page above 5MB, the last one possibly a part, and less than a byte more. */
  lemma EveryPageHasABit(lenth: nat)
    requires 0x50_0000 <= lenth && lenth + 0xfff < U32
    ensures lenth - 0x50_0000 <= 0x1000 * PageCnt(lenth) < lenth - 0x50_0000 + 0x1000
    ensures PageCnt(lenth) <= 8 * BitMapCnt(lenth) < PageCnt(lenth) + 8
  {
    var x := lenth - BITMAP + PAGE_SIZE - 1;
    assert (lenth - BITMAP) % U32 == lenth - BITMAP && x % U32 == x;
    assert 0x1000 * (x / 0x1000) <= x < 0x1000 * (x / 0x1000) + 0x1000;
  }

  /** The bitmap fits the one page reserved for it exactly when at most 128MB lie above 5MB. */
  lemma BitmapFitsItsPage(lenth: nat)
    requires 0x50_0000 <= lenth < U32
    ensures BitMapCnt(lenth) <= 0x1000 <==> lenth - 0x50_0000 <= 128 * 0x10_0000
  {
  }
}
