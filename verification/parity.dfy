/** What the parity blocks of a stripe contain, and why the stripe on disk is a codeword: blocks of
    different sizes count as zero past their end, and parity is cut at the largest block.
 */
module Parity {
  import opened Octet
  import opened GF256
  import opened Linear
  import opened ReedSolomon
  import opened ImageFile

  /** Byte `i` of block `j`; zero past its end and in unused positions. */
  function ByteAt(blocks: seq<Bytes>, j: nat, i: nat): byte {
    if j < |blocks| && i < |blocks[j]| then blocks[j][i] else 0
  }

  /** Byte `i` of each of the `k` positions of the stripe. */
  function BlockColumn(blocks: seq<Bytes>, k: nat, i: nat): (r: Vec)
    ensures |r| == k && forall j :: 0 <= j < k ==> r[j] == ByteAt(blocks, j, i)
  {
    seq(k, j requires 0 <= j < k => ByteAt(blocks, j, i))
  }

  ghost predicate Shaped(c: Codec) {
    ValidParameters(c.k, c.m) && IsMatrix(c.coding, c.k + c.m, c.k)
  }

  /** Byte `i` of parity shard `m`: the sum over the blocks of coefficient times byte. */
  function ParityByte(c: Codec, blocks: seq<Bytes>, m: nat, i: nat): byte
    requires Shaped(c) && m < c.m
  {
    Dot(c.coding[c.k + m], BlockColumn(blocks, c.k, i), c.k)
  }

  function MaxSize(blocks: seq<Bytes>): (n: nat)
    ensures forall j :: 0 <= j < |blocks| ==> |blocks[j]| <= n
    ensures |blocks| > 0 ==> exists j :: 0 <= j < |blocks| && |blocks[j]| == n
  {
    if |blocks| == 0 then 0 else
      var n := MaxSize(blocks[..|blocks| - 1]);
      var last := |blocks[|blocks| - 1]|;
      if last > n || |blocks| == 1 then last else n
  }

  /** The payload of a parity block, cut at `size` bytes. */
  function ParityPayload(c: Codec, blocks: seq<Bytes>, m: nat, size: nat): (r: Bytes)
    requires Shaped(c) && m < c.m
    ensures |r| == size && forall i :: 0 <= i < size ==> r[i] == ParityByte(c, blocks, m, i)
  {
    seq(size, i requires 0 <= i < size => ParityByte(c, blocks, m, i))
  }

  lemma ParityOfNothing(c: Codec, m: nat, i: nat)
    requires Shaped(c) && m < c.m
    ensures ParityByte(c, [], m, i) == 0
  {
    DotZero(c.coding[c.k + m], BlockColumn([], c.k, i), c.k);
  }

  /** One more block adds its coefficient times its byte, and nothing past its end. */
  lemma ParityOfOneMore(c: Codec, blocks: seq<Bytes>, block: Bytes, m: nat, i: nat)
    requires Shaped(c) && m < c.m && |blocks| < c.k
    ensures ParityByte(c, blocks + [block], m, i)
            == if i < |block| then Add(ParityByte(c, blocks, m, i), Mul(Coefficient(c, m, |blocks|), block[i]))
               else ParityByte(c, blocks, m, i)
  {
    hide Dot, Mul, Add;
    var before, after := BlockColumn(blocks, c.k, i), BlockColumn(blocks + [block], c.k, i);
    var pos := |blocks|;
    var x := ByteAt(blocks + [block], pos, i);
    assert after == before[pos := x];
    DotSet(c.coding[c.k + m], before, pos, x, c.k);
    if i >= |block| {
      MulZero(Coefficient(c, m, pos), 0);
      AddLaws(ParityByte(c, blocks, m, i), 0, 0);
    }
  }

  /** Truncation loses nothing: past the largest block, parity is zero. */
  lemma ParityTailIsZero(c: Codec, blocks: seq<Bytes>, m: nat, i: nat)
    requires Shaped(c) && m < c.m && MaxSize(blocks) <= i
    ensures ParityByte(c, blocks, m, i) == 0
  {
    DotZero(c.coding[c.k + m], BlockColumn(blocks, c.k, i), c.k);
  }

  /** The data shards of the stripe: each block padded with zeros to `size`, and all-zero shards in
      the unused positions. */
  function DataShards(blocks: seq<Bytes>, k: nat, size: nat): (r: Matrix)
    ensures |r| == k && forall j :: 0 <= j < k ==> |r[j]| == size
    ensures forall j, i :: 0 <= j < k && 0 <= i < size ==> r[j][i] == ByteAt(blocks, j, i)
  {
    seq(k, j requires 0 <= j < k => seq(size, i requires 0 <= i < size => ByteAt(blocks, j, i)))
  }

  /** Byte `i` of shard `s` as it comes back from disk: data blocks padded with zeros, parity cut at
      the largest block and padded again. */
  function ShardByte(c: Codec, blocks: seq<Bytes>, s: nat, i: nat): byte
    requires Shaped(c) && s < c.k + c.m
  {
    if s < c.k then ByteAt(blocks, s, i)
    else if i < MaxSize(blocks) then ParityByte(c, blocks, s - c.k, i)
    else 0
  }

  /** These shards form a codeword, whatever the shard size. */
  lemma StripeIsCodeword(c: Codec, blocks: seq<Bytes>, size: nat, s: nat, i: nat)
    requires IsCodec(c) && i < size && s < c.k + c.m
    ensures CodeByte(c, DataShards(blocks, c.k, size), s, i) == ShardByte(c, blocks, s, i)
  {
    hide Dot, IsCodec, MaxSize;
    CodecShape(c);
    var data := DataShards(blocks, c.k, size);
    assert Column(data, i) == BlockColumn(blocks, c.k, i);
    if s < c.k {
      Systematic(c, Column(data, i), s);
    } else if MaxSize(blocks) <= i {
      ParityTailIsZero(c, blocks, s - c.k, i);
    }
  }
}
