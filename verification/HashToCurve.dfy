/**
 * The try-and-increment search that derives the group constants: a counter byte is appended to the
 * tag, and the first counter whose digest decodes to a field element and a point wins.
 */
module HashToCurve {
  import NumberTheory
  import opened Bits
  import opened Wrappers

  type byte = x: int | 0 <= x < 256

  /** The BLAKE2s chunk hash, field decoding and point decompression, which live elsewhere. */
  datatype Codec<!Fe, !Point> = Codec(
    hash: seq<byte> -> seq<byte>,
    fromRandomBytes: seq<byte> -> Option<Fe>,
    decompress: Fe -> Option<Point>,
    fieldBits: nat,
    shaveBits: nat)
  {
    /** Chunks are 32 bytes. */
    ghost predicate Valid() {
      forall input :: |hash(input)| == 32
    }

    function BigintSize(): nat {
      (fieldBits + shaveBits) / 8
    }

    function ChunkNum(): nat {
      if BigintSize() % 32 == 0 then BigintSize() / 32 else BigintSize() / 32 + 1
    }

    /** `chunk_0 = H(tag)`, `chunk_i = H(chunk_{i-1})`: the last chunk of the chain. */
    function Link(input: seq<byte>, k: nat): seq<byte> {
      if k == 0 then input else hash(Link(input, k - 1))
    }

    /** The chunks one after the other. */
    function Chain(input: seq<byte>, k: nat): seq<byte> {
      if k == 0 then [] else Chain(input, k - 1) + Link(input, k)
    }

    /** The bits beyond the field's are cleared. */
    function Masked(bits: seq<bool>): (r: seq<bool>)
      ensures |r| == |bits|
    {
      seq(|bits|, i requires 0 <= i < |bits| => bits[i] && !(fieldBits <= i < 8 * BigintSize()))
    }

    /** The field element in the leading masked bytes. */
    function Decoded(chunks: seq<byte>): Option<Fe> {
      var bytes := ToBytes(Masked(ToBitVec(chunks)));
      if BigintSize() > |bytes| then None else fromRandomBytes(bytes[..BigintSize()])
    }

    /** What one counter yields, if anything. */
    function Candidate(tag: seq<byte>, counter: byte): Option<Point> {
      match Decoded(Chain(tag + [counter], ChunkNum()))
      case None => None
      case Some(fe) => decompress(fe)
    }
  }

  /** Each byte most significant bit first. */
  function ToBitVec(bytes: seq<byte>): (bits: seq<bool>)
    ensures |bits| == 8 * |bytes|
  {
    if bytes == [] then [] else ToBits(bytes[0], 8) + ToBitVec(bytes[1..])
  }

  function ToBytes(bits: seq<bool>): (bytes: seq<byte>)
    ensures 8 * |bytes| <= |bits| < 8 * |bytes| + 8
  {
    if |bits| < 8 then [] else
      PackByte(bits[..8]);
      [Pack(bits[..8])] + ToBytes(bits[8..])
  }

  lemma PackByte(bits: seq<bool>)
    requires |bits| == 8
    ensures Pack(bits) < 256
  {
    PackBound(bits);
    PowerOfEight(8);
  }

  lemma PowerOfEight(k: nat)
    requires k == 8
    ensures NumberTheory.Pow2(k) == 256
  {
    NumberTheory.Pow2Plus4(4);
    NumberTheory.Pow2Plus4(0);
  }

  /** Unmasked bits survive the trip through the bit vector. */
  lemma {:induction false} BytesRoundTrip(bytes: seq<byte>)
    ensures ToBytes(ToBitVec(bytes)) == bytes
  {
    if bytes != [] {
      var bits := ToBitVec(bytes);
      assert bits[..8] == ToBits(bytes[0], 8) && bits[8..] == ToBitVec(bytes[1..]);
      PowerOfEight(8);
      PackToBitsExact(bytes[0], 8);
      BytesRoundTrip(bytes[1..]);
    }
  }

  lemma {:induction false} ChainLength<Fe, Point>(c: Codec<Fe, Point>, input: seq<byte>, k: nat)
    requires c.Valid()
    ensures |c.Chain(input, k)| == 32 * k
  {
    if k != 0 {
      ChainLength(c, input, k - 1);
      assert |c.hash(c.Link(input, k - 1))| == 32;
    }
  }

  // ----- the bytes that are decoded -----

  lemma {:induction false} BitVecAt(bytes: seq<byte>, j: nat)
    requires j < |bytes|
    ensures ToBitVec(bytes)[8 * j..8 * j + 8] == ToBits(bytes[j], 8)
  {
    if j != 0 {
      BitVecAt(bytes[1..], j - 1);
      assert ToBitVec(bytes)[8..] == ToBitVec(bytes[1..]);
      assert ToBitVec(bytes)[8 * j..8 * j + 8] == ToBitVec(bytes)[8..][8 * (j - 1)..8 * (j - 1) + 8];
    }
  }

  lemma {:induction false} BytesAt(bits: seq<bool>, j: nat)
    requires j < |ToBytes(bits)|
    ensures ToBytes(bits)[j] == Pack(bits[8 * j..8 * j + 8])
  {
    if j != 0 {
      BytesAt(bits[8..], j - 1);
      assert bits[8..][8 * (j - 1)..8 * (j - 1) + 8] == bits[8 * j..8 * j + 8];
    }
  }

  lemma {:induction false} PackFalse(bits: seq<bool>)
    requires forall i :: 0 <= i < |bits| ==> !bits[i]
    ensures Pack(bits) == 0
  {
    if bits != [] {
      PackFalse(bits[..|bits| - 1]);
    }
  }

  /** Clearing all but the leading `kept` bits of a byte takes its remainder away. */
  lemma ClearedByte(x: byte, kept: nat, bits: seq<bool>)
    requires kept <= 8 && |bits| == 8
    requires forall i :: 0 <= i < 8 ==> bits[i] == (i < kept && ToBits(x, 8)[i])
    ensures Pack(bits) == x - x % NumberTheory.Pow2(8 - kept)
  {
    hide ToBits, Pack, NumberTheory.Pow2;
    var all, m := ToBits(x, 8), 8 - kept;
    var head, tail, clear := all[..kept], all[kept..], bits[kept..];
    assert all == head + tail && bits == head + clear;
    PowerOfEight(8);
    PackToBitsExact(x, 8);
    PackAppend(head, tail);
    PackAppend(head, clear);
    PackFalse(clear);
    PackBound(tail);
    NumberTheory.MultipleDivides(NumberTheory.Pow2(m), Pack(head));
    Commute(Pack(head), NumberTheory.Pow2(m));
    NumberTheory.ResidueUnique(NumberTheory.Pow2(m), x, Pack(tail));
  }

  lemma Commute(a: int, b: int)
    ensures a * b == b * a
  {
  }

  /** The bits of byte `j` that belong to the field. */
  function Kept(fieldBits: nat, j: nat): (r: nat)
    ensures r <= 8
  {
    if 8 * j + 8 <= fieldBits then 8 else if 8 * j >= fieldBits then 0 else fieldBits - 8 * j
  }

  /**
   * The bytes that are decoded: the leading chunk bytes, whole inside the field's bits, zero outside,
   * and without their low bits where the field ends.
   */
  lemma DecodedBytes<Fe, Point>(c: Codec<Fe, Point>, chunks: seq<byte>) returns (bytes: seq<byte>)
    requires c.BigintSize() <= |chunks|
    ensures |bytes| == (c.fieldBits + c.shaveBits) / 8
    ensures forall j :: 0 <= j < |bytes| ==>
              bytes[j] == if 8 * j + 8 <= c.fieldBits then chunks[j]
                          else if c.fieldBits <= 8 * j then 0
                          else chunks[j] - chunks[j] % NumberTheory.Pow2(8 * j + 8 - c.fieldBits)
    ensures c.Decoded(chunks) == c.fromRandomBytes(bytes)
  {
    var bits := c.Masked(ToBitVec(chunks));
    bytes := ToBytes(bits)[..c.BigintSize()];
    forall j | 0 <= j < |bytes|
      ensures bytes[j] == if 8 * j + 8 <= c.fieldBits then chunks[j]
                          else if c.fieldBits <= 8 * j then 0
                          else chunks[j] - chunks[j] % NumberTheory.Pow2(8 * j + 8 - c.fieldBits)
    {
      MaskedByte(c, chunks, j);
    }
  }

  lemma MaskedByte<Fe, Point>(c: Codec<Fe, Point>, chunks: seq<byte>, j: nat)
    requires j < c.BigintSize() <= |chunks|
    ensures j < |ToBytes(c.Masked(ToBitVec(chunks)))|
    ensures ToBytes(c.Masked(ToBitVec(chunks)))[j]
         == if 8 * j + 8 <= c.fieldBits then chunks[j]
            else if c.fieldBits <= 8 * j then 0
            else chunks[j] - chunks[j] % NumberTheory.Pow2(8 * j + 8 - c.fieldBits)
  {
    hide ToBits, ToBitVec, ToBytes, Pack;
    var all, kept := ToBitVec(chunks), Kept(c.fieldBits, j);
    var bits := c.Masked(all);
    var own := bits[8 * j..8 * j + 8];
    BytesAt(bits, j);
    BitVecAt(chunks, j);
    forall i | 0 <= i < 8
      ensures own[i] == (i < kept && ToBits(chunks[j], 8)[i])
    {
      assert ToBits(chunks[j], 8)[i] == all[8 * j..8 * j + 8][i];
    }
    ClearedByte(chunks[j], kept, own);
    PowerOfEight(8);
  }

  lemma {:induction false} ChainAt<Fe, Point>(c: Codec<Fe, Point>, input: seq<byte>, k: nat, i: nat, m: nat)
    requires c.Valid() && i < k && m < 32
    ensures |c.Chain(input, k)| == 32 * k && |c.Link(input, i + 1)| == 32
    ensures c.Chain(input, k)[32 * i + m] == c.Link(input, i + 1)[m]
  {
    ChainLength(c, input, k);
    ChainLength(c, input, k - 1);
    assert |c.hash(c.Link(input, i))| == 32;
    if i < k - 1 {
      ChainAt(c, input, k - 1, i, m);
    }
  }

  /** The chain as blocks: the first is the hash of the input, each later one the hash of the one before. */
  lemma ChainBlocks<Fe, Point>(c: Codec<Fe, Point>, input: seq<byte>, k: nat) returns (blocks: seq<seq<byte>>)
    requires c.Valid()
    ensures |blocks| == k && |c.Chain(input, k)| == 32 * k
    ensures forall i :: 0 <= i < k ==> |blocks[i]| == 32
    ensures k > 0 ==> blocks[0] == c.hash(input)
    ensures forall i :: 0 < i < k ==> blocks[i] == c.hash(blocks[i - 1])
    ensures forall j :: 0 <= j < 32 * k ==> c.Chain(input, k)[j] == blocks[j / 32][j % 32]
  {
    blocks := seq(k, i requires 0 <= i < k => c.Link(input, i + 1));
    ChainLength(c, input, k);
    forall i | 0 <= i < k
      ensures blocks[i] == c.hash(c.Link(input, i)) && |blocks[i]| == 32
    {
      assert |c.hash(c.Link(input, i))| == 32;
    }
    forall i | 0 < i < k
      ensures blocks[i] == c.hash(blocks[i - 1])
    {
      assert blocks[i - 1] == c.Link(input, i);
    }
    forall j | 0 <= j < 32 * k
      ensures c.Chain(input, k)[j] == blocks[j / 32][j % 32]
    {
      ChainAt(c, input, k, j / 32, j % 32);
    }
  }

  /**
   * What a counter is tried on. The tag with the counter byte appended is hashed, every later block is
   * the hash of the one before, there are just enough blocks, and what is decoded are their leading
   * bytes without the bits beyond the field's.
   */
  lemma CandidateBytes<Fe, Point>(c: Codec<Fe, Point>, tag: seq<byte>, counter: byte)
    returns (blocks: seq<seq<byte>>, bytes: seq<byte>)
    requires c.Valid()
    ensures |bytes| == (c.fieldBits + c.shaveBits) / 8
    ensures 32 * |blocks| - 32 < |bytes| <= 32 * |blocks|
    ensures forall i :: 0 <= i < |blocks| ==> |blocks[i]| == 32
    ensures |blocks| > 0 ==> blocks[0] == c.hash(tag + [counter])
    ensures forall i :: 0 < i < |blocks| ==> blocks[i] == c.hash(blocks[i - 1])
    ensures forall j :: 0 <= j < |bytes| ==>
              bytes[j] == if 8 * j + 8 <= c.fieldBits then blocks[j / 32][j % 32]
                          else if c.fieldBits <= 8 * j then 0
                          else blocks[j / 32][j % 32] - blocks[j / 32][j % 32] % NumberTheory.Pow2(8 * j + 8 - c.fieldBits)
    ensures c.Candidate(tag, counter) == match c.fromRandomBytes(bytes) case None => None case Some(fe) => c.decompress(fe)
  {
    blocks := ChainBlocks(c, tag + [counter], c.ChunkNum());
    bytes := DecodedBytes(c, c.Chain(tag + [counter], c.ChunkNum()));
  }

  /** Clears the surplus bits one by one. */
  method MaskBits<Fe, Point>(c: Codec<Fe, Point>, bits: array<bool>)
    requires c.fieldBits <= 8 * c.BigintSize() <= bits.Length
    modifies bits
    ensures bits[..] == c.Masked(old(bits[..]))
    ensures forall i :: c.fieldBits <= i < 8 * c.BigintSize() ==> !bits[i]
    ensures forall i :: 0 <= i < c.fieldBits || 8 * c.BigintSize() <= i < bits.Length ==> bits[i] == old(bits[i])
  {
    for i := c.fieldBits to 8 * c.BigintSize()
      invariant forall k :: 0 <= k < bits.Length ==> bits[k] == (old(bits[k]) && !(c.fieldBits <= k < i))
    {
      bits[i] := false;
    }
  }

  /** Masks the chunk bits in place and decodes a field element from the leading bytes. */
  method DecodeChunks<Fe, Point>(c: Codec<Fe, Point>, chunks: seq<byte>) returns (fe: Option<Fe>)
    requires c.fieldBits <= 8 * c.BigintSize() && c.BigintSize() <= |chunks|
    ensures fe == c.Decoded(chunks)
    ensures exists bytes: seq<byte> ::
              && |bytes| == (c.fieldBits + c.shaveBits) / 8
              && fe == c.fromRandomBytes(bytes)
              && forall j :: 0 <= j < |bytes| ==>
                   bytes[j] == if 8 * j + 8 <= c.fieldBits then chunks[j]
                               else if c.fieldBits <= 8 * j then 0
                               else chunks[j] - chunks[j] % NumberTheory.Pow2(8 * j + 8 - c.fieldBits)
  {
    ghost var decoded := DecodedBytes(c, chunks);
    var bitVec := ToBitVec(chunks);
    var chunkBits := new bool[|bitVec|](i requires 0 <= i < |bitVec| => bitVec[i]);
    assert chunkBits[..] == bitVec;
    MaskBits(c, chunkBits);
    var chunkBytes := ToBytes(chunkBits[..]);
    fe := c.fromRandomBytes(chunkBytes[..c.BigintSize()]);
  }

  /**
   * `hash_to_curve` with overflow checks. It returns the point of the least counter below 255 that
   * yields one; when there is none the counter overflows and the call panics, so the candidate at
   * 255 is never decoded and `None` is never returned.
   */
  method HashToCurve<Fe, Point>(c: Codec<Fe, Point>, tag0: seq<byte>) returns (r: Result<Option<Point>>)
    requires c.Valid() && c.fieldBits <= 8 * c.BigintSize()
    ensures r.Ok? ==> r.value.Some? && exists k: byte :: k < 255 && c.Candidate(tag0, k) == r.value
                                                         && forall j: byte :: j < k ==> c.Candidate(tag0, j).None?
    ensures r.Ok? <==> exists k: byte :: k < 255 && c.Candidate(tag0, k).Some?
    ensures r.Err? ==> r.error == Panicked
  {
    var tagLen := |tag0|;
    var tag := tag0 + [0];
    while tag[tagLen] <= 255
      invariant |tag| == tagLen + 1 && tag[..tagLen] == tag0
      invariant forall j: byte :: j < tag[tagLen] ==> c.Candidate(tag0, j).None?
      decreases 255 - tag[tagLen]
    {
      ghost var counter: byte := tag[tagLen];
      assert tag == tag0 + [counter];
      var chunks := [];
      var prevHash := tag;
      for i := 0 to c.ChunkNum()
        invariant prevHash == c.Link(tag, i) && chunks == c.Chain(tag, i)
      {
        prevHash := c.hash(prevHash);
        chunks := chunks + prevHash;
      }
      if tag[tagLen] == 255 {
        return Err(Panicked);
      }
      tag := tag[tagLen := tag[tagLen] + 1];
      ChainLength(c, tag0 + [counter], c.ChunkNum());
      var fe := DecodeChunks(c, chunks);
      if fe.Some? {
        var point := c.decompress(fe.value);
        if point.Some? {
          assert counter < 255 && c.Candidate(tag0, counter) == point;
          return Ok(point);
        }
      }
    }
  }
}
