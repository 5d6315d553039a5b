/** A catalogue image whose key lies outside it and which is decoded all the same. */
module MoExample {
  import opened Bytes
  import opened MoCatalogue

  /** An image of 37 bytes with one string, whose key has length 2^32 - 2. */
  function Backward(): seq<Byte> {
    [222, 18, 4, 149, 0, 0, 0, 0, 1, 0, 0, 0, 20, 0, 0, 0, 28, 0, 0, 0,
     254, 255, 255, 255, 36, 0, 0, 0, 0, 0, 0, 0, 36, 0, 0, 0, 0]
  }

  /** It is decoded although its key does not lie inside: the read goes back by one byte. */
  lemma BackwardString()
    ensures Readable(Backward()) && !InPlace(Backward())
  {
    hide Backward, Readable, AfterStrings, Read32, Read16, At32, HeaderOk, Count, TableAt, StringLength, StringAt;
    BackwardHeader();
    BackwardStrings();
    ReadableExactly(Backward());
    assert !StringIn(Backward(), 20, 0);
  }

  /** Four bytes of it as a number. */
  lemma WordAt(image: seq<Byte>, off: nat, a: Byte, b: Byte, c: Byte, d: Byte)
    requires off + 4 <= |image|
    requires image[off] == a && image[off + 1] == b && image[off + 2] == c && image[off + 3] == d
    ensures At32(image, off, true) == Read32([a, b, c, d], true)
  {
    hide Read32;
    assert image[off..off + 4] == [a, b, c, d];
  }

  lemma BackwardStart()
    ensures var b := Backward();
            && |b| == 37
            && b[0] == 222 && b[1] == 18 && b[2] == 4 && b[3] == 149 && b[4] == 0 && b[5] == 0
            && b[8] == 1 && b[9] == 0 && b[10] == 0 && b[11] == 0
  {
  }

  lemma BackwardOffsets()
    ensures var b := Backward();
            && |b| == 37
            && b[12] == 20 && b[13] == 0 && b[14] == 0 && b[15] == 0
            && b[16] == 28 && b[17] == 0 && b[18] == 0 && b[19] == 0
  {
  }

  lemma BackwardKey()
    ensures var b := Backward();
            && |b| == 37
            && b[20] == 254 && b[21] == 255 && b[22] == 255 && b[23] == 255
            && b[24] == 36 && b[25] == 0 && b[26] == 0 && b[27] == 0
  {
  }

  lemma BackwardValue()
    ensures var b := Backward();
            && |b| == 37
            && b[28] == 0 && b[29] == 0 && b[30] == 0 && b[31] == 0
            && b[32] == 36 && b[33] == 0 && b[34] == 0 && b[35] == 0
  {
  }

  lemma BackwardHeader()
    ensures |Backward()| == 37 && HeaderOk(Backward()) && IsLittle(Backward()) && Count(Backward()) == 1
    ensures TableAt(Backward(), 12) == 20 && TableAt(Backward(), 16) == 28
  {
    hide Backward, Read32, At32, Read16, HeaderOk, IsLittle, Count, TableAt, Magic;
    BackwardStart();
    BackwardOffsets();
    Words();
    var b := Backward();
    WordAt(b, 0, 222, 18, 4, 149);
    WordAt(b, 8, 1, 0, 0, 0);
    WordAt(b, 12, 20, 0, 0, 0);
    WordAt(b, 16, 28, 0, 0, 0);
    NoVersion(b);
    HeaderFrom(b);
  }

  /** A little-endian header with one string and the tables at 20 and 28. */
  lemma HeaderFrom(image: seq<Byte>)
    requires |image| == 37 && At32(image, 0, true) == 0x950412de && Read16(image[4..6], true) == 0
    requires At32(image, 8, true) == 1 && At32(image, 12, true) == 20 && At32(image, 16, true) == 28
    ensures HeaderOk(image) && IsLittle(image) && Count(image) == 1
    ensures TableAt(image, 12) == 20 && TableAt(image, 16) == 28
  {
    hide At32, Read16;
  }

  lemma NoVersion(image: seq<Byte>)
    requires |image| >= 6 && image[4] == 0 && image[5] == 0
    ensures Read16(image[4..6], true) == 0
  {
  }

  lemma BackwardStrings()
    ensures |Backward()| == 37 && IsLittle(Backward())
    ensures StringLength(Backward(), 20, 0) == WORD - 2 && StringAt(Backward(), 20, 0) == 36
    ensures StringLength(Backward(), 28, 0) == 0 && StringAt(Backward(), 28, 0) == 36
  {
    hide Backward, Read32, At32, IsLittle;
    BackwardHeader();
    BackwardKey();
    BackwardValue();
    Words();
    var b := Backward();
    WordAt(b, 20, 254, 255, 255, 255);
    WordAt(b, 24, 36, 0, 0, 0);
    WordAt(b, 28, 0, 0, 0, 0);
    WordAt(b, 32, 36, 0, 0, 0);
  }

  lemma Words()
    ensures Read32([222, 18, 4, 149], true) == 0x950412de && Read32([1, 0, 0, 0], true) == 1
    ensures Read32([20, 0, 0, 0], true) == 20 && Read32([28, 0, 0, 0], true) == 28 && Read32([36, 0, 0, 0], true) == 36
    ensures Read32([254, 255, 255, 255], true) == WORD - 2 && Read32([0, 0, 0, 0], true) == 0
  {
  }
}
