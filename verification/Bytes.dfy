/** Byte sequences: what is written at an offset, and little-endian 32-bit words. */
module Bytes {
  import opened Common

  type byte = x: nat | x < 0x100

  function Zeros(n: nat): (r: seq<byte>)
    ensures |r| == n
  {
    seq(n, i => 0)
  }

  lemma SliceOfSlice(d: seq<byte>, a: nat, b: nat, i: nat, j: nat)
    requires a <= b <= |d| && i <= j <= b - a
    ensures d[a..b][i..j] == d[a + i..a + j]
  {
    forall k | 0 <= k < j - i ensures d[a..b][i..j][k] == d[a + i..a + j][k] {
      assert d[a..b][i..j][k] == d[a..b][i + k] == d[a + i + k];
    }
  }

  lemma SliceDiffers(d: seq<byte>, o: nat, x: seq<byte>, k: nat)
    requires o + |x| <= |d| && k < |x| && d[o + k] != x[k]
    ensures d[o..o + |x|] != x
  {
    assert d[o..o + |x|][k] == d[o + k];
  }

  lemma SliceEquals(d: seq<byte>, o: nat, x: seq<byte>)
    requires o + |x| <= |d| && forall k | 0 <= k < |x| :: d[o + k] == x[k]
    ensures d[o..o + |x|] == x
  {
    forall k | 0 <= k < |x| ensures d[o..o + |x|][k] == x[k] {
      assert d[o..o + |x|][k] == d[o + k];
    }
  }

  lemma SliceAppend(d: seq<byte>, a: nat, b: nat, x: seq<byte>)
    requires a <= b && b + |x| <= |d| && d[b..b + |x|] == x
    ensures d[a..b + |x|] == d[a..b] + x
  {
  }

  // ----- Writing at an offset -----

  function Put(d: seq<byte>, off: nat, data: seq<byte>): (r: seq<byte>)
    requires off + |data| <= |d|
    ensures |r| == |d|
    ensures r[off..off + |data|] == data
  {
    d[..off] + data + d[off + |data|..]
  }

  lemma PutAt(d: seq<byte>, off: nat, data: seq<byte>, i: nat)
    requires off + |data| <= |d| && i < |d|
    ensures Put(d, off, data)[i] == if off <= i < off + |data| then data[i - off] else d[i]
  {
  }

  /** What lies wholly before or after is not changed. */
  lemma PutElsewhere(d: seq<byte>, off: nat, data: seq<byte>, a: nat, b: nat)
    requires off + |data| <= |d| && a <= b <= |d| && (b <= off || off + |data| <= a)
    ensures Put(d, off, data)[a..b] == d[a..b]
  {
    forall i | a <= i < b ensures Put(d, off, data)[i] == d[i] {
      PutAt(d, off, data, i);
    }
  }

  /** A part of what was written. */
  lemma PutInside(d: seq<byte>, off: nat, data: seq<byte>, i: nat, j: nat)
    requires off + |data| <= |d| && i <= j <= |data|
    ensures Put(d, off, data)[off + i..off + j] == data[i..j]
  {
    forall k | 0 <= k < j - i ensures Put(d, off, data)[off + i..off + j][k] == data[i..j][k] {
      PutAt(d, off, data, off + i + k);
    }
  }

  /** Two writes side by side are one. */
  lemma PutPut(d: seq<byte>, off: nat, x: seq<byte>, y: seq<byte>)
    requires off + |x| + |y| <= |d|
    ensures Put(Put(d, off, x), off + |x|, y) == Put(d, off, x + y)
  {
    forall i | 0 <= i < |d| ensures Put(Put(d, off, x), off + |x|, y)[i] == Put(d, off, x + y)[i] {
      PutAt(d, off, x, i);
      PutAt(Put(d, off, x), off + |x|, y, i);
      PutAt(d, off, x + y, i);
    }
  }

  lemma PutNothing(d: seq<byte>, off: nat)
    requires off <= |d|
    ensures Put(d, off, []) == d
  {
  }

  /** A second write over the start of the first. */
  lemma PutOver(d: seq<byte>, off: nat, x: seq<byte>, y: seq<byte>, tail: seq<byte>)
    requires off + |x| <= |d| && |x| == |y| + |tail| && x[|y|..] == tail
    ensures Put(Put(d, off, x), off, y) == Put(d, off, y + tail)
  {
    forall i | 0 <= i < |d| ensures Put(Put(d, off, x), off, y)[i] == Put(d, off, y + tail)[i] {
      PutAt(d, off, x, i);
      PutAt(Put(d, off, x), off, y, i);
      PutAt(d, off, y + tail, i);
      assert off + |y| <= i < off + |x| ==> x[i - off] == tail[i - off - |y|];
    }
  }

  /** Writes to separate ranges can be made in either order. */
  lemma PutSwap(d: seq<byte>, a: nat, x: seq<byte>, b: nat, y: seq<byte>)
    requires a + |x| <= |d| && b + |y| <= |d| && (a + |x| <= b || b + |y| <= a)
    ensures Put(Put(d, a, x), b, y) == Put(Put(d, b, y), a, x)
  {
    forall i | 0 <= i < |d| ensures Put(Put(d, a, x), b, y)[i] == Put(Put(d, b, y), a, x)[i] {
      PutAt(d, a, x, i);
      PutAt(Put(d, a, x), b, y, i);
      PutAt(d, b, y, i);
      PutAt(Put(d, b, y), a, x, i);
    }
  }

  // ----- Words -----

  type word = x: nat | x < U32

  function EncodeWord(x: word): (r: seq<byte>)
    ensures |r| == 4
  {
    var x1 := x / 0x100;
    var x2 := x1 / 0x100;
    [x % 0x100, x1 % 0x100, x2 % 0x100, x2 / 0x100]
  }

  function DecodeWord(b: seq<byte>): word
    requires |b| == 4
  {
    (b[0] as int) + 0x100 * ((b[1] as int) + 0x100 * ((b[2] as int) + 0x100 * (b[3] as int)))
  }

  /** The byte at the lowest address is the lowest, as on the machine the disk belongs to. */
  lemma LowByteFirst()
    ensures DecodeWord([63, 0, 0, 0]) == 63
    ensures DecodeWord([0x8f, 0x9a, 0x08, 0x00]) == 563855
    ensures DecodeWord([0x78, 0x56, 0x34, 0x12]) == 0x1234_5678
  {
  }

  /** One more in byte k is 256^k more in the word. */
  lemma PlaceValue(b: seq<byte>, k: nat)
    requires |b| == 4 && k < 4 && b[k] < 0xff
    ensures DecodeWord(b[k := b[k] + 1])
         == DecodeWord(b) + if k == 0 then 1 else if k == 1 then 0x100 else if k == 2 then 0x1_0000 else 0x100_0000
    ensures DecodeWord([0, 0, 0, 0]) == 0
  {
  }

  lemma DecodeEncode(x: word)
    ensures DecodeWord(EncodeWord(x)) == x
  {
  }

  lemma EncodeDecode(b: seq<byte>)
    requires |b| == 4
    ensures EncodeWord(DecodeWord(b)) == b
  {
    var x2 := (b[2] as int) + 0x100 * (b[3] as int);
    var x1 := (b[1] as int) + 0x100 * x2;
    assert DecodeWord(b) / 0x100 == x1 && x1 / 0x100 == x2;
  }

  function Encode(ws: seq<word>): (r: seq<byte>)
    ensures |r| == 4 * |ws|
  {
    if ws == [] then [] else EncodeWord(ws[0]) + Encode(ws[1..])
  }

  function Decode(b: seq<byte>): (ws: seq<word>)
    requires |b| % 4 == 0
    ensures |b| == 4 * |ws|
  {
    if b == [] then [] else [DecodeWord(b[..4])] + Decode(b[4..])
  }

  lemma {:induction false} DecodeEncodeWords(ws: seq<word>)
    ensures Decode(Encode(ws)) == ws
  {
    if ws != [] {
      DecodeEncode(ws[0]);
      DecodeEncodeWords(ws[1..]);
      assert Encode(ws)[..4] == EncodeWord(ws[0]) && Encode(ws)[4..] == Encode(ws[1..]);
    }
  }

  /** Word k of what is decoded stands at byte 4 * k. */
  lemma {:induction false} DecodedAt(b: seq<byte>, k: nat)
    requires |b| % 4 == 0 && 4 * k < |b|
    ensures k < |Decode(b)| && Decode(b)[k] == DecodeWord(b[4 * k..4 * k + 4])
    decreases |b|
  {
    if k > 0 {
      DecodedAt(b[4..], k - 1);
      assert b[4..][4 * (k - 1)..4 * (k - 1) + 4] == b[4 * k..4 * k + 4];
    }
  }

  lemma {:induction false} EncodeDecodeWords(b: seq<byte>)
    requires |b| % 4 == 0
    ensures Encode(Decode(b)) == b
  {
    if b != [] {
      EncodeDecode(b[..4]);
      EncodeDecodeWords(b[4..]);
      assert Decode(b)[1..] == Decode(b[4..]) && b == b[..4] + b[4..];
    }
  }
}
