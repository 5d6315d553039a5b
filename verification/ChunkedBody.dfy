/**
 Chunked transfer coding (section 4.1 of RFC 7230, without extensions and trailer fields): how
 the server frames its buffers, and an independent decoder for whole bodies.
 */
module ChunkedBody {
  import opened Bytes

  /** The size line of the last chunk, and the empty line that ends the body. */
  const LAST: seq<Byte> := [48, 13, 10, 13, 10]

  function HexDigit(v: nat): Byte
    requires v < 16
  {
    if v < 10 then 48 + v else 97 + v - 10
  }

  predicate IsHex(b: Byte) {
    48 <= b <= 57 || 97 <= b <= 102 || 65 <= b <= 70
  }

  function HexOf(b: Byte): nat
    requires IsHex(b)
  {
    if b <= 57 then b - 48 else if b <= 70 then b - 65 + 10 else b - 97 + 10
  }

  /** A number in base 16, most significant digit first. */
  function Hex(n: nat): seq<Byte> {
    if n < 16 then [HexDigit(n)] else Hex(n / 16) + [HexDigit(n % 16)]
  }

  function SizeLine(n: nat): seq<Byte> {
    Hex(n) + CRLF
  }

  function Chunk(data: seq<Byte>): seq<Byte> {
    SizeLine(|data|) + data + CRLF
  }

  function Chunks(parts: seq<seq<Byte>>): seq<Byte> {
    if parts == [] then [] else Chunks(parts[..|parts| - 1]) + Chunk(parts[|parts| - 1])
  }

  function Concat(parts: seq<seq<Byte>>): seq<Byte> {
    if parts == [] then [] else Concat(parts[..|parts| - 1]) + parts[|parts| - 1]
  }

  // ------------------------------------------------------------------- decoding

  /** How many hex digits the sequence starts with. */
  function HexRun(s: seq<Byte>): (k: nat)
    ensures k <= |s|
    ensures forall i :: 0 <= i < k ==> IsHex(s[i])
  {
    if s != [] && IsHex(s[0]) then 1 + HexRun(s[1..]) else 0
  }

  function HexValue(s: seq<Byte>): nat
    requires forall i :: 0 <= i < |s| ==> IsHex(s[i])
  {
    if s == [] then 0 else 16 * HexValue(s[..|s| - 1]) + HexOf(s[|s| - 1])
  }

  /** The data of a body that is chunks and then one last chunk, with nothing after it. */
  function Decode(s: seq<Byte>): Option<seq<Byte>>
    decreases |s|
  {
    var k := HexRun(s);
    if k == 0 || |s| < k + 2 || s[k..k + 2] != CRLF then None
    else
      var n := HexValue(s[..k]);
      if n == 0 then (if s[k + 2..] == CRLF then Some([]) else None)
      else if |s| < k + 2 + n + 2 || s[k + 2 + n..k + 4 + n] != CRLF then None
      else
        match Decode(s[k + 4 + n..])
        case None => None
        case Some(rest) => Some(s[k + 2..k + 2 + n] + rest)
  }

  // ------------------------------------------------------------------- round trip

  lemma {:induction false} HexRoundTrip(n: nat)
    ensures Hex(n) != [] && forall i :: 0 <= i < |Hex(n)| ==> IsHex(Hex(n)[i])
    ensures HexValue(Hex(n)) == n
  {
    if n >= 16 {
      HexRoundTrip(n / 16);
      var h := Hex(n);
      assert h[..|h| - 1] == Hex(n / 16) && h[|h| - 1] == HexDigit(n % 16);
    }
  }

  /** Six digits hold every number below 2 to the 24th. */
  lemma HexLength(n: nat)
    requires n < 0x100_0000
    ensures 1 <= |Hex(n)| <= 6
  {
    var a := n / 16;
    var b := a / 16;
    var c := b / 16;
    var d := c / 16;
    var e := d / 16;
    assert e < 16 && |Hex(e)| == 1;
    assert |Hex(d)| <= 2;
    assert |Hex(c)| <= 3;
    assert |Hex(b)| <= 4;
    assert |Hex(a)| <= 5;
  }

  lemma {:induction false} HexRunOf(h: seq<Byte>, rest: seq<Byte>)
    requires forall i :: 0 <= i < |h| ==> IsHex(h[i])
    requires rest != [] && !IsHex(rest[0])
    ensures HexRun(h + rest) == |h|
    decreases |h|
  {
    if h == [] {
      assert h + rest == rest;
    } else {
      assert (h + rest)[1..] == h[1..] + rest;
      HexRunOf(h[1..], rest);
    }
  }

  lemma DecodeSizeLine(n: nat, rest: seq<Byte>)
    ensures var s := SizeLine(n) + rest; var k := |Hex(n)|;
            && k > 0 && HexRun(s) == k && |s| >= k + 2 && s[k..k + 2] == CRLF
            && s[..k] == Hex(n) && HexValue(s[..k]) == n && s[k + 2..] == rest
  {
    HexRoundTrip(n);
    var s := SizeLine(n) + rest;
    assert s == Hex(n) + (CRLF + rest);
    HexRunOf(Hex(n), CRLF + rest);
    assert s[..|Hex(n)|] == Hex(n);
  }

  /** A non-empty chunk in front of a body adds its data in front. */
  lemma DecodeChunk(data: seq<Byte>, rest: seq<Byte>)
    requires data != []
    ensures Decode(Chunk(data) + rest) ==
            match Decode(rest) case None => None case Some(more) => Some(data + more)
  {
    hide Hex, HexRun, HexValue;
    var n, k := |data|, |Hex(|data|)|;
    var tail := data + (CRLF + rest);
    var s := SizeLine(n) + tail;
    assert Chunk(data) + rest == s;
    DecodeSizeLine(n, tail);
    assert s[k + 2..] == tail;
    assert s[k + 2 + n..k + 4 + n] == tail[n..n + 2] == CRLF;
    assert s[k + 4 + n..] == tail[n + 2..] == rest;
    assert s[k + 2..k + 2 + n] == tail[..n] == data;
  }

  lemma DecodeLast()
    ensures Decode(LAST) == Some([])
  {
    DecodeSizeLine(0, CRLF);
    assert Hex(0) == [48];
    assert SizeLine(0) + CRLF == LAST;
  }

  lemma {:induction false} DecodeChunksThen(parts: seq<seq<Byte>>, rest: seq<Byte>)
    requires forall i :: 0 <= i < |parts| ==> parts[i] != []
    ensures Decode(Chunks(parts) + rest) ==
            match Decode(rest) case None => None case Some(more) => Some(Concat(parts) + more)
    decreases |parts|
  {
    hide Decode, Chunk;
    if parts == [] {
      assert Chunks(parts) + rest == rest;
      if Decode(rest).Some? { assert Concat(parts) + Decode(rest).value == Decode(rest).value; }
    } else {
      var front, last := parts[..|parts| - 1], parts[|parts| - 1];
      assert Chunks(parts) + rest == Chunks(front) + (Chunk(last) + rest);
      DecodeChunksThen(front, Chunk(last) + rest);
      DecodeChunk(last, rest);
      if Decode(rest).Some? {
        assert Concat(front) + (last + Decode(rest).value) == Concat(parts) + Decode(rest).value;
      }
    }
  }

  /** Non-empty chunks and one last chunk decode to the data of the chunks. */
  lemma DecodeBody(parts: seq<seq<Byte>>)
    requires forall i :: 0 <= i < |parts| ==> parts[i] != []
    ensures Decode(Chunks(parts) + LAST) == Some(Concat(parts))
  {
    DecodeChunksThen(parts, LAST);
    DecodeLast();
    assert Concat(parts) + [] == Concat(parts);
  }
}
