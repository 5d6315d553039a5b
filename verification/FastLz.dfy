/** The public FastLZ entry points, and the round trip between them. */
module FastLz {
  import opened Bytes
  import opened FastLzFormat
  import opened FastLzGreedy
  import opened FastLzCompress
  import opened FastLzDecompress

  /** What any block decompresses to with `maxout` bytes of room: the top three bits of the
      first byte name the level, and an unknown level is an error. */
  function BlockMeaning(block: seq<Byte>, maxout: nat): Option<seq<Byte>> {
    var level := At(block, 0) / 32 + 1;
    if IsLevel(level) then Decoded(ParseBlock(level, block), maxout) else None
  }

  /** Every well-formed block means what it was made from. */
  lemma BlockRoundTrip(level: int, x: seq<Byte>, block: seq<Byte>, maxout: nat)
    requires IsBlock(level, x, block) && |x| <= maxout
    ensures BlockMeaning(block, maxout) == Some(x)
  {
    hide Parse, Encode, Expand;
    var toks :| IsBlockOf(level, x, block, toks);
    ParseBlockRoundTrip(level, toks);
    assert x[..|x|] == x;
  }

  /** fastlz_compress_level: 0 for a level other than 1 and 2. */
  method CompressAt(level: int, input: seq<Byte>, output: array<Byte>) returns (size: nat)
    requires |input| < 0x8000_0000 && PeakSize(|input|) <= output.Length
    modifies output
    ensures size <= SizeBound(|input|) && size <= output.Length
    ensures size == 0 <==> input == [] || !IsLevel(level)
    ensures size > 0 ==> forall maxout :: |input| <= maxout ==>
              BlockMeaning(output[..size], maxout) == Some(input)
    ensures size > 0 ==> output[..size] == BlockFor(level, input)
    ensures size > 0 ==> output[0] / 32 + 1 == if |input| < 4 then 1 else level
    ensures forall i :: PeakSize(|input|) <= i < output.Length ==> output[i] == old(output[i])
  {
    hide Greedy, IsBlockOf;
    if level == 1 {
      size := CompressLevel(1, input, output);
    } else if level == 2 {
      size := CompressLevel(2, input, output);
    } else {
      return 0;
    }
    ghost var block := output[..size];
    if size > 0 {
      ghost var l, toks := if |input| < 4 then 1 else level, if |input| < 4 then [Literal(input)] else Greedy(level, input);
      BlockNamesLevel(l, input, block, toks);
      BlockIs(level, input, block);
      forall maxout: nat | |input| <= maxout ensures BlockMeaning(block, maxout) == Some(input) {
        BlockRoundTrip(if |input| < 4 then 1 else level, input, block, maxout);
      }
    }
  }

  lemma BlockIs(level: int, x: seq<Byte>, block: seq<Byte>)
    requires if |x| < 4 then IsBlockOf(1, x, block, [Literal(x)]) else IsBlockOf(level, x, block, Greedy(level, x))
    ensures block == BlockFor(level, x)
  {
    hide Greedy, Done;
  }

  /** fastlz_compress: level 1 below 65536 bytes, level 2 from there on. */
  method Compress(input: seq<Byte>, output: array<Byte>) returns (size: nat)
    requires |input| < 0x8000_0000 && PeakSize(|input|) <= output.Length
    modifies output
    ensures size <= SizeBound(|input|) && size <= output.Length
    ensures size == 0 <==> input == []
    ensures size > 0 ==> forall maxout :: |input| <= maxout ==>
              BlockMeaning(output[..size], maxout) == Some(input)
    ensures size > 0 ==> output[..size] == BlockFor(if |input| < 65536 then 1 else 2, input)
    ensures size > 0 ==> output[0] / 32 + 1 == if |input| < 65536 then 1 else 2
    ensures forall i :: PeakSize(|input|) <= i < output.Length ==> output[i] == old(output[i])
  {
    if |input| < 65536 {
      size := CompressAt(1, input, output);
    } else {
      size := CompressAt(2, input, output);
    }
  }

  /** fastlz_decompress, on arbitrary bytes. */
  method DecompressAny(strictAlign: bool, input: seq<Byte>, output: array<Byte>, maxout: nat)
      returns (size: nat)
    requires maxout <= output.Length
    modifies output
    ensures output[maxout..] == old(output[maxout..])
    ensures match BlockMeaning(input, maxout)
            case None => size == 0
            case Some(x) => size == |x| <= maxout && output[..size] == x
  {
    var level := At(input, 0) / 32 + 1;
    if level == 1 {
      size := Decompress(1, strictAlign, input, output, maxout);
    } else if level == 2 {
      size := Decompress(2, strictAlign, input, output, maxout);
    } else {
      size := 0;
    }
  }

  /** The whole round trip at a given level: decompressing what the compressor wrote, into any
      buffer of at least the input's size, gives back the input. */
  method CompressThenDecompress(level: int, strictAlign: bool, input: seq<Byte>, maxout: nat)
      returns (block: seq<Byte>, result: seq<Byte>)
    requires IsLevel(level) && 1 <= |input| < 0x8000_0000 && |input| <= maxout
    ensures result == input
    ensures 1 <= |block| <= |input| + 1 + (|input| - 1) / 32
    ensures block == BlockFor(level, input) && BlockMeaning(block, maxout) == Some(result)
  {
    var packed := new Byte[PeakSize(|input|)](_ => 0);
    var size := CompressAt(level, input, packed);
    block := packed[..size];
    var room := new Byte[maxout](_ => 0);
    size := DecompressAny(strictAlign, block, room, maxout);
    result := room[..size];
  }

  /** The output buffer the header file asks of callers, 5% more than the input and at least 66
      bytes, always has the room the compressor uses. */
  lemma DocumentedBufferSuffices(n: nat, room: nat)
    requires room >= 66 && 20 * room >= 21 * n
    ensures PeakSize(n) <= room
  {
  }
}
