/** Allocation of sectors by the host tool (finux_tool/finux.py: can_use, find_sectors_in_map,
    set_sector_map).  One byte of the map stands for eight sectors of the data area. */
module SectorMap {
  import opened Bytes

  /** Map bytes needed for count sectors. */
  function Units(count: nat): nat {
    (count + 7) / 8
  }

  predicate ZeroFrom(map_: seq<byte>, start: nat, n: nat) {
    start + n <= |map_| && forall k | start <= k < start + n :: map_[k] == 0
  }

  /** Some byte among the n from start on is in use. */
  predicate Blocked(map_: seq<byte>, start: nat, n: nat) {
    exists k :: start <= k < start + n && k < |map_| && map_[k] != 0
  }

  datatype Answer = Yes | No | IndexError

  /** can_use: only a request that meets the end of the map before a byte in use is an error. */
  method CanUse(sector_map: array<byte>, start: nat, count: nat) returns (r: Answer)
    ensures r == Yes <==> ZeroFrom(sector_map[..], start, Units(count)) || count == 0
    ensures r == No <==> Blocked(sector_map[..], start, Units(count))
  {
    var i := 0;
    while i < count
      invariant i % 8 == 0 && i <= count + 7 && (i > 0 ==> start + i / 8 <= sector_map.Length)
      invariant forall k | start <= k < start + i / 8 :: k < sector_map.Length && sector_map[k] == 0
    {
      if start + i / 8 >= sector_map.Length {
        return IndexError;
      }
      if sector_map[start + i / 8] != 0 {
        assert sector_map[..][start + i / 8] != 0;
        return No;
      }
      i := i + 8;
    }
    assert i / 8 == Units(count);
    return Yes;
  }

  /** All earlier places are taken, and this one is free as far as the map goes but too short. */
  ghost predicate FreeToTheEnd(map_: seq<byte>, s: nat, n: nat) {
    !Blocked(map_, s, n) && !ZeroFrom(map_, s, n) && forall t | 0 <= t < s :: Blocked(map_, t, n)
  }

  datatype Place = At(start: nat) | NoSpace | Error

  /** find_sectors_in_map: the first place with enough free bytes. */
  method FindSectors(sector_map: array<byte>, count: nat) returns (r: Place)
    requires count > 0
    ensures r.At? ==> ZeroFrom(sector_map[..], r.start, Units(count))
    ensures r.At? ==> forall s | 0 <= s < r.start :: Blocked(sector_map[..], s, Units(count))
    ensures r == NoSpace <==> forall s | 0 <= s < sector_map.Length :: Blocked(sector_map[..], s, Units(count))
    ensures r == Error ==> exists s :: 0 <= s < sector_map.Length && FreeToTheEnd(sector_map[..], s, Units(count))
  {
    for off := 0 to sector_map.Length
      invariant forall s | 0 <= s < off :: Blocked(sector_map[..], s, Units(count))
    {
      var c := CanUse(sector_map, off, count);
      match c
      case Yes => return At(off);
      case IndexError =>
        assert FreeToTheEnd(sector_map[..], off, Units(count));
        return Error;
      case No =>
    }
    return NoSpace;
  }

  function Pow2(n: nat): (p: nat)
    ensures p > 0
  {
    if n == 0 then 1 else 2 * Pow2(n - 1)
  }

  /** A byte whose highest m bits are set. */
  function HighBits(m: nat): (b: byte)
    requires 1 <= m <= 8
    ensures b != 0
  {
    assert Pow2(8) == 256 && Pow2(7) == 128 && Pow2(6) == 64 && Pow2(5) == 32;
    (Pow2(m) - 1) * Pow2(8 - m)
  }

  /** Bit j of a byte, counted from the highest. */
  predicate BitSet(b: byte, j: nat)
    requires j < 8
  {
    b / Pow2(7 - j) % 2 == 1
  }

  /** The highest m bits are set, the others are not. */
  lemma HighBitsAreSet(m: nat, j: nat)
    requires 1 <= m <= 8 && j < 8
    ensures BitSet(HighBits(m), j) <==> j < m
  {
    if m <= 2 {
      UpToTwoBits(m, j);
    } else if m <= 4 {
      UpToFourBits(m, j);
    } else if m <= 6 {
      UpToSixBits(m, j);
    } else {
      UpToEightBits(m, j);
    }
  }

  lemma UpToTwoBits(m: nat, j: nat)
    requires 1 <= m <= 2 && j < 8
    ensures BitSet(HighBits(m), j) <==> j < m
  {
    PowersOfTwo();
    assert HighBits(m) == if m == 1 then 0x80 else 0xc0;
  }

  lemma UpToFourBits(m: nat, j: nat)
    requires 3 <= m <= 4 && j < 8
    ensures BitSet(HighBits(m), j) <==> j < m
  {
    PowersOfTwo();
    assert HighBits(m) == if m == 3 then 0xe0 else 0xf0;
  }

  lemma UpToSixBits(m: nat, j: nat)
    requires 5 <= m <= 6 && j < 8
    ensures BitSet(HighBits(m), j) <==> j < m
  {
    PowersOfTwo();
    assert HighBits(m) == if m == 5 then 0xf8 else 0xfc;
  }

  lemma UpToEightBits(m: nat, j: nat)
    requires 7 <= m <= 8 && j < 8
    ensures BitSet(HighBits(m), j) <==> j < m
  {
    PowersOfTwo();
    assert HighBits(m) == if m == 7 then 0xfe else 0xff;
  }

  lemma AllHighBits()
    ensures HighBits(8) == 0xff
  {
    PowersOfTwo();
  }

  lemma PowersOfTwo()
    ensures Pow2(0) == 1 && Pow2(1) == 2 && Pow2(2) == 4 && Pow2(3) == 8
    ensures Pow2(4) == 16 && Pow2(5) == 32 && Pow2(6) == 64 && Pow2(7) == 128 && Pow2(8) == 256
  {
  }

  /** Sectors counted by the map byte that holds the last of `cnt` sectors. */
  function Rest(cnt: nat): (m: nat)
    requires cnt > 0
    ensures 1 <= m <= 8
  {
    cnt - (Units(cnt) - 1) * 8
  }

  /** Byte k of the map after set_sector_map, which for more than eight sectors overwrites one byte
      more than can_use looked at. */
  function MarkedByte(map_: seq<byte>, start: nat, cnt: nat, k: nat): byte
    requires cnt > 0 && k < |map_|
  {
    if cnt <= 8 then (if k == start then HighBits(cnt) else map_[k])
    else if start <= k < start + Units(cnt) then 0xff
    else if k == start + Units(cnt) then HighBits(Rest(cnt))
    else map_[k]
  }

  function Marked(map_: seq<byte>, start: nat, cnt: nat): (r: seq<byte>)
    requires cnt > 0
    ensures |r| == |map_| && forall k | 0 <= k < |map_| :: r[k] == MarkedByte(map_, start, cnt, k)
  {
    seq(|map_|, k requires 0 <= k < |map_| => MarkedByte(map_, start, cnt, k))
  }

  /** set_sector_map; false stands for the exception at the end of the list. */
  method SetSectorMap(sector_map: array<byte>, start: nat, cnt: nat) returns (ok: bool)
    requires cnt > 0 && start + Units(cnt) <= sector_map.Length
    modifies sector_map
    ensures ok <==> start + Units(cnt) + (if cnt > 8 then 1 else 0) <= sector_map.Length
    ensures ok ==> sector_map[..] == Marked(old(sector_map[..]), start, cnt)
  {
    var sector_start := start;
    if cnt > 8 {
      var i := 0;
      while true
        invariant i % 8 == 0 && 0 <= i < cnt && sector_start == start + i / 8
        invariant forall k | 0 <= k < sector_map.Length ::
                    sector_map[k] == if start <= k < sector_start then 0xff else old(sector_map[k])
        decreases cnt - i
      {
        sector_map[sector_start] := 0xff;
        sector_start := sector_start + 1;
        if i + 8 >= cnt {
          break;
        }
        i := i + 8;
      }
      assert sector_start == start + Units(cnt) && cnt - i == Rest(cnt);
      var tmp := HighBits(cnt - i);
      if sector_start >= sector_map.Length {
        return false;
      }
      sector_map[sector_start] := tmp;
    } else {
      sector_map[sector_start] := HighBits(cnt);
    }
    assert sector_map[..] == Marked(old(sector_map[..]), start, cnt);
    return true;
  }

  /** Bit by bit, one for each sector: up to eight sectors mark their own bits.  More than eight mark all
      bits of their bytes, and in the byte behind them as many as there are sectors in the last one. */
  lemma MarkedBits(map_: seq<byte>, start: nat, cnt: nat, k: nat, j: nat)
    requires cnt > 0 && k < |map_| && j < 8
    ensures var b, i := Marked(map_, start, cnt)[k], (k as int) - start;
      if cnt <= 8 then
        if i == 0 then BitSet(b, j) <==> j < cnt else b == map_[k]
      else if 0 <= i && 8 * i < cnt then
        BitSet(b, j)
      else if 0 <= i && 8 * (i - 1) < cnt then
        BitSet(b, j) <==> 8 * (i - 1) + j < cnt
      else
        b == map_[k]
  {
    if cnt <= 8 {
      HighBitsAreSet(cnt, j);
    } else {
      HighBitsAreSet(Rest(cnt), j);
      HighBitsAreSet(8, j);
      AllHighBits();
    }
  }

  // ----- Runs of allocations -----

  /** cnt sectors from sector 8 * start of the data area on, as the inode records them. */
  datatype Extent = Extent(start: nat, cnt: nat)

  predicate Disjoint(a: Extent, b: Extent) {
    8 * a.start + a.cnt <= 8 * b.start || 8 * b.start + b.cnt <= 8 * a.start
  }

  /** Every map byte of every extent is in use, and no two extents share a sector. */
  ghost predicate Sound(map_: seq<byte>, extents: seq<Extent>) {
    && (forall e | e in extents :: 0 < e.cnt && e.start + Units(e.cnt) <= |map_|)
    && (forall e, k | e in extents && e.start <= k < e.start + Units(e.cnt) && k < |map_| :: map_[k] != 0)
    && (forall i, j | 0 <= i < j < |extents| :: Disjoint(extents[i], extents[j]))
  }

  /** A successful allocation: where find_sectors_in_map puts it and what set_sector_map makes of it. */
  ghost predicate Allocates(map_: seq<byte>, e: Extent, map': seq<byte>) {
    && 0 < e.cnt && ZeroFrom(map_, e.start, Units(e.cnt))
    && (forall s | 0 <= s < e.start :: Blocked(map_, s, Units(e.cnt)))
    && e.start + Units(e.cnt) + (if e.cnt > 8 then 1 else 0) <= |map_|
    && map' == Marked(map_, e.start, e.cnt)
  }

  /** The overwritten byte stays in use, so the extents stay disjoint. */
  lemma AllocationKeepsSound(map_: seq<byte>, extents: seq<Extent>, e: Extent, map': seq<byte>)
    requires Sound(map_, extents) && Allocates(map_, e, map')
    ensures Sound(map', extents + [e])
  {
    assert forall k | 0 <= k < |map_| && map_[k] != 0 :: map'[k] != 0;
    forall i | 0 <= i < |extents| ensures Disjoint(extents[i], e) {
      var a := extents[i];
      assert a in extents;
      var k := if a.start < e.start then e.start else a.start;
      assert a.start <= k < a.start + Units(a.cnt) ==> map_[k] != 0;
      assert e.start <= k < e.start + Units(e.cnt) ==> map_[k] == 0;
    }
    forall x | x in extents + [e] ensures x in extents || x == e {
    }
  }

  /** Over any sequence of successful allocations from an empty map, the extents are disjoint. */
  lemma {:induction false} RunKeepsSound(maps: seq<seq<byte>>, extents: seq<Extent>)
    requires |maps| == |extents| + 1 && (forall k | 0 <= k < |maps[0]| :: maps[0][k] == 0)
    requires forall i | 0 <= i < |extents| :: Allocates(maps[i], extents[i], maps[i + 1])
    ensures Sound(maps[|extents|], extents)
    decreases |extents|
  {
    if extents != [] {
      var n := |extents| - 1;
      RunKeepsSound(maps[..n + 1], extents[..n]);
      assert Allocates(maps[n], extents[n], maps[n + 1]);
      AllocationKeepsSound(maps[n], extents[..n], extents[n], maps[n + 1]);
      assert extents[..n] + [extents[n]] == extents;
    }
  }

  /** First fit puts cnt sectors at map byte p. */
  ghost predicate FitsAt(map_: seq<byte>, p: nat, cnt: nat)
    requires cnt > 0
  {
    Allocates(map_, Extent(p, cnt), Marked(map_, p, cnt))
  }

  ghost predicate HasRoom(map_: seq<byte>, cnt: nat)
    requires cnt > 0
  {
    exists p: nat :: FitsAt(map_, p, cnt)
  }

  lemma FirstFitIsUnique(map_: seq<byte>, p: nat, q: nat, cnt: nat)
    requires cnt > 0 && FitsAt(map_, p, cnt) && FitsAt(map_, q, cnt)
    ensures p == q
  {
    FreeIsNotBlocked(map_, p, Units(cnt));
    FreeIsNotBlocked(map_, q, Units(cnt));
  }

  lemma FreeIsNotBlocked(map_: seq<byte>, p: nat, n: nat)
    requires ZeroFrom(map_, p, n)
    ensures !Blocked(map_, p, n)
  {
  }

  /** Where the search fails there is no room. */
  lemma NoRoom(map_: seq<byte>, cnt: nat)
    requires cnt > 0
    requires
      || (forall s | 0 <= s < |map_| :: Blocked(map_, s, Units(cnt)))
      || (exists s :: 0 <= s < |map_| && FreeToTheEnd(map_, s, Units(cnt)))
    ensures !HasRoom(map_, cnt)
  {
    forall p: nat ensures !FitsAt(map_, p, cnt) {
      if FitsAt(map_, p, cnt) {
        FreeIsNotBlocked(map_, p, Units(cnt));
      }
    }
  }

  lemma FreeAtStart(map_: seq<byte>, r: Place, cnt: nat)
    requires cnt > 0 && (r.At? ==> forall s | 0 <= s < r.start :: Blocked(map_, s, Units(cnt)))
    requires r == NoSpace ==> forall s | 0 <= s < |map_| :: Blocked(map_, s, Units(cnt))
    requires r == Error ==> exists s :: 0 <= s < |map_| && FreeToTheEnd(map_, s, Units(cnt))
    ensures ZeroFrom(map_, 0, Units(cnt)) ==> r == At(0)
  {
    if ZeroFrom(map_, 0, Units(cnt)) {
      FreeIsNotBlocked(map_, 0, Units(cnt));
    }
  }

  /** The place found is the only one, and there the marks go past the end. */
  lemma TooShort(map_: seq<byte>, start: nat, cnt: nat)
    requires cnt > 0 && ZeroFrom(map_, start, Units(cnt))
    requires forall s | 0 <= s < start :: Blocked(map_, s, Units(cnt))
    requires start + Units(cnt) + (if cnt > 8 then 1 else 0) > |map_|
    ensures !HasRoom(map_, cnt)
  {
    forall p: nat ensures !FitsAt(map_, p, cnt) {
      if FitsAt(map_, p, cnt) {
        FreeIsNotBlocked(map_, p, Units(cnt));
        FreeIsNotBlocked(map_, start, Units(cnt));
      }
    }
  }

  /** cp_file's two calls together: a first-fit allocation, which succeeds if and only if there is
      room. */
  method Allocate(sector_map: array<byte>, cnt: nat) returns (r: Place)
    requires cnt > 0
    modifies sector_map
    ensures r.At? ==> Allocates(old(sector_map[..]), Extent(r.start, cnt), sector_map[..])
    ensures r.At? <==> HasRoom(old(sector_map[..]), cnt)
    ensures r == NoSpace ==> sector_map[..] == old(sector_map[..])
    ensures ZeroFrom(old(sector_map[..]), 0, Units(cnt)) && Units(cnt) < sector_map.Length ==> r == At(0)
  {
    hide Blocked, Marked;
    ghost var map_ := sector_map[..];
    r := FindSectors(sector_map, cnt);
    assert sector_map[..] == map_;
    FreeAtStart(map_, r, cnt);
    match r
    case At(start) =>
      var ok := SetSectorMap(sector_map, start, cnt);
      if !ok {
        TooShort(map_, start, cnt);
        return Error;
      }
      assert FitsAt(map_, start, cnt);
    case _ =>
      NoRoom(map_, cnt);
  }
}
