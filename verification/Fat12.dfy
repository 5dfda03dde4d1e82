/** The packed table of a FAT12 volume and the lookup arithmetic of boot/boot.s
    (get_next_sector_in_FAT). */
module Fat12 {
  import opened Bytes

  type cluster = x: nat | x < 0x1000

  /** Twelve-bit entries packed little-endian, two in three bytes, as in the section "FAT Data
      Structure" of Microsoft's FAT32 File System Specification, version 1.03. */
  function Pack(table: seq<cluster>): (r: seq<byte>)
    ensures |r| == (3 * |table| + 1) / 2
  {
    if table == [] then []
    else if |table| == 1 then [table[0] % 0x100, table[0] / 0x100]
    else [table[0] % 0x100, table[0] / 0x100 + 16 * (table[1] % 16), table[1] / 16] + Pack(table[2..])
  }

  /** Two entries in three bytes, literally. */
  lemma PackedBytes()
    ensures Pack([0xabc, 0xdef]) == [0xbc, 0xfa, 0xde]
  {
    assert Pack([0xabc, 0xdef][2..]) == [];
  }

  /** Entry n by the steps of the loader: the byte offset 3n/2, the word there, shifted right by four
      for an odd n, its low twelve bits. */
  function Lookup(fat: seq<byte>, n: nat): cluster
    requires 3 * n / 2 + 1 < |fat|
  {
    var off := 3 * n / 2;
    var ax := (fat[off] as int) + 0x100 * (fat[off + 1] as int);
    (if n % 2 == 1 then ax / 16 else ax) % 0x1000
  }

  lemma PairLookup(b: seq<byte>, a0: cluster, a1: cluster)
    requires |b| == 3 && b[0] == a0 % 0x100 && b[1] == a0 / 0x100 + 16 * (a1 % 16) && b[2] == a1 / 16
    ensures ((b[0] as int) + 0x100 * (b[1] as int)) % 0x1000 == a0
    ensures ((b[1] as int) + 0x100 * (b[2] as int)) / 16 % 0x1000 == a1
  {
    var hi := a0 / 0x100;
    assert (b[1] as int) + 0x100 * (b[2] as int) == hi + 16 * ((a1 % 16) + 16 * (a1 / 16));
    assert (b[0] as int) + 0x100 * (b[1] as int) == a0 + 0x1000 * (a1 % 16);
  }

  lemma LookupBehindPair(pair: seq<byte>, rest: seq<byte>, n: nat)
    requires |pair| == 3 && n >= 2 && 3 * (n - 2) / 2 + 1 < |rest|
    ensures 3 * n / 2 + 1 < |pair + rest| && Lookup(pair + rest, n) == Lookup(rest, n - 2)
  {
    assert 3 * n / 2 == 3 + 3 * (n - 2) / 2;
    assert n % 2 == (n - 2) % 2;
  }

  lemma LookupInPair(pair: seq<byte>, rest: seq<byte>, n: nat)
    requires |pair| == 3 && n < 2
    ensures 3 * n / 2 + 1 < |pair + rest|
    ensures Lookup(pair + rest, n) == if n == 0 then ((pair[0] as int) + 0x100 * (pair[1] as int)) % 0x1000
                                      else ((pair[1] as int) + 0x100 * (pair[2] as int)) / 16 % 0x1000
  {
  }

  /** The lookup undoes the packing, for entries of either parity. */
  lemma {:induction false} LookupPacked(table: seq<cluster>, n: nat)
    requires n < |table|
    ensures 3 * n / 2 + 1 < |Pack(table)| && Lookup(Pack(table), n) == table[n]
    decreases |table|
  {
    if |table| == 1 {
      var fat := Pack(table);
      assert fat[0] == table[0] % 0x100 && fat[1] == table[0] / 0x100;
    } else {
      var a0, a1 := table[0], table[1];
      var pair: seq<byte> := [a0 % 0x100, a0 / 0x100 + 16 * (a1 % 16), a1 / 16];
      if n < 2 {
        PairLookup(pair, a0, a1);
        LookupInPair(pair, Pack(table[2..]), n);
      } else {
        LookupPacked(table[2..], n - 2);
        LookupBehindPair(pair, Pack(table[2..]), n);
      }
    }
  }

  // ----- Chains -----

  /** The clusters of a file: each table entry names the next, the last one is 0xfff. */
  ghost predicate Chain(table: seq<cluster>, chain: seq<cluster>) {
    && |chain| > 0
    && (forall i | 0 <= i < |chain| :: chain[i] < |table|)
    && (forall i | 0 <= i < |chain| :: Follows(table, chain, i))
  }

  ghost predicate Follows(table: seq<cluster>, chain: seq<cluster>, i: nat)
    requires i < |chain| && chain[i] < |table|
  {
    table[chain[i]] == if i + 1 < |chain| then chain[i + 1] else 0xfff
  }

  /** A file of the clusters 2 and 3. */
  lemma ChainExample()
    ensures Chain([0xff0, 0xfff, 3, 0xfff], [2, 3]) && !Chain([0xff0, 0xfff, 3, 0xff8], [2, 3])
  {
    assert Follows([0xff0, 0xfff, 3, 0xfff], [2, 3], 0) && Follows([0xff0, 0xfff, 3, 0xfff], [2, 3], 1);
    assert !Follows([0xff0, 0xfff, 3, 0xff8], [2, 3], 1);
  }

  lemma {:induction false} SameTail(table: seq<cluster>, chain: seq<cluster>, i: nat, j: nat, k: nat)
    requires Chain(table, chain) && i < j && j + k < |chain| && chain[i] == chain[j]
    ensures chain[i + k] == chain[j + k]
    decreases k
  {
    if k > 0 {
      SameTail(table, chain, i, j, k - 1);
      assert Follows(table, chain, i + k - 1) && Follows(table, chain, j + k - 1);
    }
  }

  /** A chain that ends visits no cluster twice. */
  lemma ChainIsAcyclic(table: seq<cluster>, chain: seq<cluster>)
    requires Chain(table, chain) && |table| <= 0xfff
    ensures forall i, j | 0 <= i < j < |chain| :: chain[i] != chain[j]
  {
    forall i, j | 0 <= i < j < |chain| ensures chain[i] != chain[j] {
      var k := |chain| - 1 - j;
      assert Follows(table, chain, i + k) && Follows(table, chain, j + k);
      assert chain[i + k + 1] < |table| && chain[i + k] != chain[j + k];
      if chain[i] == chain[j] {
        SameTail(table, chain, i, j, k);
      }
    }
  }
}
