/** The page allocator that get_pages and free_pages suggest but do not implement (kernel/mm/page.c).

    Three repairs: the bitmap pointer advances with `i` (presupposed by the `i * 8` on line 72), the
    mask starts anew for every byte, and free_pages divides by the eight pages of a byte. */
module PageBitmapRepaired {
  import opened Common
  import opened Paging
  import opened PageBitmap

  datatype Place = Nowhere | At(byte: nat, bit: nat)

  /** The first byte, from byte i on, that has a free run, and the highest run in it. */
  function Find(bits: seq<Byte>, n: nat, i: nat): (r: Place)
    requires 1 <= n <= 8 && i <= |bits|
    ensures r.At? ==> i <= r.byte < |bits| && 1 <= r.bit && r.bit + n <= 8 && FreeRun(bits[r.byte], r.bit, n)
    ensures r.At? ==> forall p | r.bit < p <= 8 - n :: !FreeRun(bits[r.byte], p, n)
    ensures r.At? ==> forall j, p | i <= j < r.byte && 1 <= p <= 8 - n :: !FreeRun(bits[j], p, n)
    ensures r.Nowhere? ==> forall j, p | i <= j < |bits| && 1 <= p <= 8 - n :: !FreeRun(bits[j], p, n)
    decreases |bits| - i
  {
    if i == |bits| then Nowhere
    else match FindRun(bits[i], n, 8 - n)
      case Some(q) => At(i, q)
      case None => Find(bits, n, i + 1)
  }

  function AfterGetAt(bits: seq<Byte>, n: nat, at: Place): (r: seq<Byte>)
    requires at.At? ==> at.byte < |bits|
    ensures |r| == |bits|
  {
    if at.At? then bits[at.byte := Or(bits[at.byte], Bits(at.bit, at.bit + n))] else bits
  }

  lemma FindRunStep(b: Byte, n: nat, from: nat)
    requires 0 < from && from + n <= 8
    ensures FindRun(b, n, from) == if FreeRun(b, from, n) then Some(from) else FindRun(b, n, from - 1)
  {
  }

  lemma NoRunAtZero(b: Byte, n: nat)
    requires n <= 8
    ensures FindRun(b, n, 0) == None
  {
  }

  /** One round of the repaired outer loop, which is the original inner loop. */
  method SearchByte(bits: Byte, n: nat) returns (r: Option<nat>)
    requires n <= 8
    ensures n > 0 ==> r == FindRun(bits, n, 8 - n)
    ensures n == 0 ==> r == Some(8)
  {
    hide FindRun, And;
    var select := Mask(n);
    var bytein := 0;
    while bytein + n < 8
      invariant 0 <= bytein <= 8 - n && select == Bits(8 - n - bytein, 8 - bytein)
      invariant FindRun(bits, n, 8 - n - bytein) == FindRun(bits, n, 8 - n) && (n == 0 ==> bytein == 0)
    {
      MaskTest(bits, 8 - n - bytein, 8 - bytein);
      assert FreeRun(bits, 8 - n - bytein, n) == Clear(bits, 8 - n - bytein, 8 - bytein);
      FindRunStep(bits, n, 8 - n - bytein);
      if And(bits, select) == ZERO {
        return Some(8 - bytein - n);
      }
      ShiftedBits(8 - n - bytein, 8 - bytein);
      select := ShiftLeft(select);
      bytein := bytein + 1;
    }
    assert FindRun(bits, n, 0) == None by { NoRunAtZero(bits, n); }
    return None;
  }

  /** get_pages, repaired; the page's number is returned. */
  method GetPages(bitmap: array<Byte>, page_bit_map_cnt: nat, n: nat) returns (r: Outcome)
    requires page_bit_map_cnt <= bitmap.Length
    modifies bitmap
    ensures n > 8 ==> r == Panic && bitmap[..] == old(bitmap[..])
    ensures n == 0 ==> r == (if page_bit_map_cnt > 0 then Page(8) else Null) && bitmap[..] == old(bitmap[..])
    ensures 1 <= n <= 8 ==> var at := Find(old(bitmap[..page_bit_map_cnt]), n, 0);
      && bitmap[..page_bit_map_cnt] == AfterGetAt(old(bitmap[..page_bit_map_cnt]), n, at)
      && r == if at.At? then Page(8 * at.byte + at.bit) else Null
    ensures bitmap[page_bit_map_cnt..] == old(bitmap[page_bit_map_cnt..])
  {
    if n > 8 {
      return Panic;
    }
    ghost var bits := bitmap[..page_bit_map_cnt];
    for i := 0 to page_bit_map_cnt
      invariant bitmap[..] == old(bitmap[..]) && (n > 0 ==> Find(bits, n, i) == Find(bits, n, 0)) && (n == 0 ==> i == 0)
    {
      var q := SearchByte(bitmap[i], n);
      if q.Some? {
        assert n == 0 ==> Or(bitmap[i], Bits(8, 8)) == bitmap[i];
        bitmap[i] := Or(bitmap[i], Bits(q.value, q.value + n));
        assert bitmap[..page_bit_map_cnt] == bits[i := Or(bits[i], Bits(q.value, q.value + n))];
        return Page(8 * i + q.value);
      }
    }
    return Null;
  }

  /** free_pages, repaired. */
  method FreePages(bitmap: array<Byte>, index: nat, n: nat)
    requires index / 8 < bitmap.Length && index % 8 + n <= 8
    modifies bitmap
    ensures bitmap[..] == old(bitmap[..])[index / 8 := AfterFree(old(bitmap[index / 8]), index, n)]
  {
    var select := Mask(n);
    var offset := index / 8;
    for i := 0 to 8 - index % 8 - n
      invariant select == Bits(8 - n - i, 8 - i) && bitmap[..] == old(bitmap[..])
    {
      ShiftedBits(8 - n - i, 8 - i);
      select := ShiftLeft(select);
    }
    ghost var was := bitmap[..];
    bitmap[offset] := And(bitmap[offset], Not(select));
    assert bitmap[..] == was[offset := bitmap[offset]];
  }

  // ----- Runs -----

  /** The effects of the repaired functions on bitmap and blocks. */
  function Do(s: State, op: Op): State
    requires Placed(s) && Possible(s, op)
  {
    match op
    case Get(n) =>
      var at := Find(s.bits, n, 0);
      if at.At? then State(AfterGetAt(s.bits, n, at), s.live + [Block(8 * at.byte + at.bit, n)]) else s
    case Free(k) =>
      var b := s.live[k];
      State(s.bits[b.page / 8 := AfterFree(s.bits[b.page / 8], b.page, b.n)], Without(s.live, k))
  }

  predicate Calls(s: State, ops: seq<Op>)
    decreases |ops|
  {
    ops == [] || (Placed(s) && Possible(s, ops[0]) && Calls(Do(s, ops[0]), ops[1..]))
  }

  function RunOps(s: State, ops: seq<Op>): State
    requires Calls(s, ops)
    decreases |ops|
  {
    if ops == [] then s else RunOps(Do(s, ops[0]), ops[1..])
  }

  lemma StepKeepsSound(s: State, op: Op)
    requires Sound(s) && Possible(s, op)
    ensures Sound(Do(s, op)) && |Do(s, op).bits| == |s.bits|
  {
    match op
    case Get(n) =>
      var at := Find(s.bits, n, 0);
      if at.At? {
        MarkKeepsSound(s, at.byte, at.bit, n);
      }
    case Free(k) => UnmarkKeepsSound(s, k);
  }

  /** Over every run, with no condition: live blocks are disjoint, exactly their pages are marked, and
      no page whose number is divisible by 8 is handed out. */
  lemma {:induction false} EveryRunIsSound(s: State, ops: seq<Op>)
    requires Sound(s) && Calls(s, ops)
    ensures Sound(RunOps(s, ops)) && |RunOps(s, ops).bits| == |s.bits|
    ensures forall i | 0 <= i < |RunOps(s, ops).live| :: RunOps(s, ops).live[i].page % 8 != 0
    decreases |ops|
  {
    if ops != [] {
      StepKeepsSound(s, ops[0]);
      EveryRunIsSound(Do(s, ops[0]), ops[1..]);
    } else {
      assert forall i | 0 <= i < |s.live| :: InByte(s.live[i], |s.bits|);
    }
  }

  /** A get fails only if no byte has a free run behind its first page; otherwise it takes the first
      such byte, and no mark but those of the new block changes. */
  lemma GetMeets(s: State, n: nat)
    requires Sound(s) && 1 <= n <= 8
    ensures |Do(s, Get(n)).live| == |s.live| <==> forall j, q | 0 <= j < |s.bits| && 1 <= q <= 8 - n ::
          !FreeRun(s.bits[j], q, n)
    ensures |Do(s, Get(n)).live| == |s.live| ==> Do(s, Get(n)) == s
    ensures |Do(s, Get(n)).live| != |s.live| ==>
              exists b :: Do(s, Get(n)).live == s.live + [b] && b.n == n
                && forall p: nat | p < 8 * |s.bits| :: Bit(Do(s, Get(n)).bits, p) <==> Bit(s.bits, p) || Holds(b, p)
  {
    var at := Find(s.bits, n, 0);
    if at.At? {
      var b := Block(8 * at.byte + at.bit, n);
      var s' := Do(s, Get(n));
      assert s'.live == s.live + [b];
      forall p: nat | p < 8 * |s.bits| ensures Bit(s'.bits, p) <==> Bit(s.bits, p) || Holds(b, p) {
        PageInByte(at.byte, at.bit, n, p);
      }
    }
  }

  /** Freeing what was just handed out restores bitmap and blocks. */
  lemma FreeUndoesGet(s: State, n: nat)
    requires Sound(s) && 1 <= n <= 8 && Find(s.bits, n, 0).At?
    ensures Placed(Do(s, Get(n))) && Possible(Do(s, Get(n)), Free(|s.live|))
    ensures Do(Do(s, Get(n)), Free(|s.live|)) == s
  {
    StepKeepsSound(s, Get(n));
    var at := Find(s.bits, n, 0);
    ByteOf(at.byte, at.bit);
    var b := s.bits[at.byte];
    assert AfterFree(Or(b, Bits(at.bit, at.bit + n)), 8 * at.byte + at.bit, n) == b;
    var s1 := Do(s, Get(n));
    assert s1.bits[at.byte := b] == s.bits;
    assert Without(s1.live, |s.live|) == s.live;
  }

  /** Where the literal code serves a call, the repaired code does the same. */
  lemma ServedCallsAgree(s: State, op: Op)
    requires Placed(s) && Possible(s, op) && Good(s, op) && (op.Get? ==> Servable(s.bits[0], op.n))
    ensures Do(s, op) == PageBitmap.Do(s, op)
  {
    match op
    case Get(n) =>
      ServedGet(s, n);
      FindInFirst(s.bits, n);
    case Free(k) =>
  }

  lemma FindInFirst(bits: seq<Byte>, n: nat)
    requires bits != [] && Servable(bits[0], n)
    ensures Find(bits, n, 0) == At(0, FindRun(bits[0], n, 8 - n).value)
  {
    hide FindRun;
  }
}
