/** Base64 as in section 4 of RFC 4648: the encoder and the strict decoder, on buffers. */
module Base64 {
  import opened Bytes

  const PAD: Byte := 61

  /** The alphabet. */
  function Letter(v: nat): (c: Byte)
    requires v < 64
    ensures c != PAD && Value(c) == v
  {
    if v < 26 then 65 + v
    else if v < 52 then 97 + v - 26
    else if v < 62 then 48 + v - 52
    else if v == 62 then 43
    else 47
  }

  /** The decoding table; 77 marks bytes outside the alphabet. */
  function Value(c: Byte): (v: nat)
    ensures v < 64 || v == 77
  {
    if 65 <= c <= 90 then c - 65
    else if 97 <= c <= 122 then c - 97 + 26
    else if 48 <= c <= 57 then c - 48 + 52
    else if c == 43 then 62
    else if c == 47 then 63
    else 77
  }

  const UPPER := "ABCDEFGHIJKLMNOPQRSTUVWXYZ"
  const LOWER := "abcdefghijklmnopqrstuvwxyz"
  const OTHERS := "0123456789+/"

  /** Table 1 of RFC 4648 is these three one after the other. */
  lemma LettersAreStandard(v: nat)
    ensures v < 26 ==> Letter(v) == UPPER[v] as int
    ensures v < 26 ==> Letter(26 + v) == LOWER[v] as int
    ensures v < 12 ==> Letter(52 + v) == OTHERS[v] as int
  {
    hide Value;
    if v < 26 {
      UpperLetters(v);
      LowerLetters(v);
    }
  }

  lemma UpperLetters(v: nat)
    requires v < 26
    ensures UPPER[v] == ('A' as int + v) as char
  {
  }

  lemma LowerLetters(v: nat)
    requires v < 26
    ensures LOWER[v] == ('a' as int + v) as char
  {
  }

  lemma LetterOfValue(c: Byte)
    requires Value(c) < 64
    ensures Letter(Value(c)) == c && c != PAD
  {
  }

  // ------------------------------------------------------------------- on values

  predicate AllLetters(s: seq<Byte>) {
    forall i :: 0 <= i < |s| ==> Value(s[i]) < 64
  }

  /** The letters of three bytes, and of the two or one left over. */
  function Group(a: Byte, b: Byte, c: Byte): (r: seq<Byte>)
    ensures |r| == 4 && AllLetters(r) && Ungroup4(r) == [a, b, c]
  {
    [Letter(a / 4), Letter(a % 4 * 16 + b / 16), Letter(b % 16 * 4 + c / 64), Letter(c % 64)]
  }

  function Group2(a: Byte, b: Byte): (r: seq<Byte>)
    ensures |r| == 3 && AllLetters(r) && Ungroup3(r) == [a, b]
  {
    [Letter(a / 4), Letter(a % 4 * 16 + b / 16), Letter(b % 16 * 4)]
  }

  function Group1(a: Byte): (r: seq<Byte>)
    ensures |r| == 2 && AllLetters(r) && Ungroup2(r) == [a]
  {
    [Letter(a / 4), Letter(a % 4 * 16)]
  }

  /** Three bytes and their four letters are the same 24 bits, most significant first; the letters
      of two bytes or one are those of the bytes followed by zero bits. */
  lemma SameBits(a: Byte, b: Byte, c: Byte)
    ensures var r := Group(a, b, c);
            0x1_0000 * a + 0x100 * b + c
            == 0x4_0000 * Value(r[0]) + 0x1000 * Value(r[1]) + 0x40 * Value(r[2]) + Value(r[3])
    ensures Group2(a, b) == Group(a, b, 0)[..3] && Group1(a) == Group(a, 0, 0)[..2]
  {
    hide Letter, Value, Ungroup2, Ungroup3, Ungroup4, AllLetters;
  }

  function Ungroup2(s: seq<Byte>): (r: seq<Byte>)
    requires |s| >= 2 && AllLetters(s)
    ensures |r| == 1
  {
    [Value(s[0]) * 4 + Value(s[1]) / 16]
  }

  function Ungroup3(s: seq<Byte>): (r: seq<Byte>)
    requires |s| >= 3 && AllLetters(s)
    ensures |r| == 2
  {
    Ungroup2(s) + [Value(s[1]) % 16 * 16 + Value(s[2]) / 4]
  }

  function Ungroup4(s: seq<Byte>): (r: seq<Byte>)
    requires |s| >= 4 && AllLetters(s)
    ensures |r| == 3
  {
    Ungroup3(s) + [Value(s[2]) % 4 * 64 + Value(s[3])]
  }

  function Encode(x: seq<Byte>): seq<Byte>
    decreases |x|
  {
    if x == [] then []
    else if |x| == 1 then Group1(x[0]) + [PAD, PAD]
    else if |x| == 2 then Group2(x[0], x[1]) + [PAD]
    else Group(x[0], x[1], x[2]) + Encode(x[3..])
  }

  /** How many letters come before the first '=' or the end; nothing when another byte comes first. */
  function Scan(s: seq<Byte>): (r: Option<nat>)
    ensures r.Some? ==> r.value <= |s| && AllLetters(s[..r.value])
    ensures r.Some? && r.value < |s| ==> s[r.value] == PAD
  {
    if s == [] || s[0] == PAD then Some(0)
    else if Value(s[0]) == 77 then None
    else
      match Scan(s[1..])
      case None => None
      case Some(n) => Some(n + 1)
  }

  /** The bytes of a string of letters; a leftover single letter is dropped. */
  function DecodeLetters(s: seq<Byte>): seq<Byte>
    requires AllLetters(s)
    decreases |s|
  {
    if |s| < 2 then []
    else if |s| == 2 then Ungroup2(s)
    else if |s| == 3 then Ungroup3(s)
    else Ungroup4(s) + DecodeLetters(s[4..])
  }

  /** The decoder: empty for a byte outside the alphabet or a length no encoding has. */
  function Decode(s: seq<Byte>): seq<Byte> {
    match Scan(s)
    case None => []
    case Some(n) => if n % 4 == 1 then [] else DecodeLetters(s[..n])
  }

  /** The letters of an encoding, without its padding. */
  function Letters(x: seq<Byte>): nat {
    |x| / 3 * 4 + if |x| % 3 == 0 then 0 else |x| % 3 + 1
  }

  /** An encoding is its letters, which decode to the bytes, and then padding to whole groups. */
  lemma {:induction false} EncodeShape(x: seq<Byte>)
    ensures var n, e := Letters(x), Encode(x);
            && |e| == (|x| + 2) / 3 * 4 && n <= |e| && n % 4 != 1
            && AllLetters(e[..n]) && (n < |e| ==> e[n] == PAD)
            && DecodeLetters(e[..n]) == x
    decreases |x|
  {
    hide Group, Ungroup4, Value, Letter, AllLetters, DecodeLetters, Encode, Letters;
    if |x| >= 3 {
      var g, rest := Group(x[0], x[1], x[2]), Encode(x[3..]);
      EncodeShape(x[3..]);
      LettersStep(x);
      LettersAfter(g, rest, Letters(x[3..]));
      EncodeFront([x[0], x[1], x[2]], x[3..]);
      assert [x[0], x[1], x[2]] + x[3..] == x;
    } else {
      ShortShape(x);
    }
  }

  lemma LettersStep(x: seq<Byte>)
    requires |x| >= 3
    ensures Letters(x) == 4 + Letters(x[3..]) && (|x| + 2) / 3 * 4 == 4 + (|x[3..]| + 2) / 3 * 4
  {
  }

  lemma ShortShape(x: seq<Byte>)
    requires |x| <= 2
    ensures var n, e := Letters(x), Encode(x);
            && |e| == (|x| + 2) / 3 * 4 && n <= |e| && n % 4 != 1
            && AllLetters(e[..n]) && (n < |e| ==> e[n] == PAD)
            && DecodeLetters(e[..n]) == x
  {
    hide Group2, Group1, Ungroup2, Ungroup3, Value, Letter;
    var e := Encode(x);
    if |x| == 2 {
      assert e[..3] == Group2(x[0], x[1]) && x == [x[0], x[1]];
    } else if |x| == 1 {
      assert e[..2] == Group1(x[0]) && x == [x[0]];
    }
  }

  lemma UngroupPrefix(g: seq<Byte>, s: seq<Byte>)
    requires |g| == 4 && |s| >= 4 && s[..4] == g && AllLetters(g) && AllLetters(s)
    ensures Ungroup4(s) == Ungroup4(g)
  {
    assert forall i :: 0 <= i < 4 ==> s[i] == s[..4][i];
  }

  /** One more group in front of some letters. */
  lemma LettersAfter(g: seq<Byte>, rest: seq<Byte>, n: nat)
    requires |g| == 4 && AllLetters(g) && n <= |rest| && AllLetters(rest[..n])
    ensures var s := (g + rest)[..n + 4];
            AllLetters(s) && DecodeLetters(s) == Ungroup4(g) + DecodeLetters(rest[..n])
  {
    hide Ungroup4;
    var s := (g + rest)[..n + 4];
    assert s == g + rest[..n];
    assert s[..4] == g && s[4..] == rest[..n];
    UngroupPrefix(g, s);
  }

  lemma {:induction false} ScanLetters(s: seq<Byte>, n: nat)
    requires n <= |s| && AllLetters(s[..n]) && (n < |s| ==> s[n] == PAD)
    ensures Scan(s) == Some(n)
    decreases n
  {
    if n > 0 {
      assert s[0] == s[..n][0];
      assert s[1..][..n - 1] == s[..n][1..];
      ScanLetters(s[1..], n - 1);
    }
  }

  /** Decoding an encoding gives back the bytes. */
  lemma RoundTrip(x: seq<Byte>)
    ensures Decode(Encode(x)) == x
  {
    hide Encode, DecodeLetters, Scan;
    EncodeShape(x);
    ScanLetters(Encode(x), Letters(x));
  }

  /** The k-th byte that letters stand for: eight of their bits, from the 8k-th on. */
  function ByteOf(s: seq<Byte>, k: nat): (r: nat)
    requires AllLetters(s) && k / 3 * 4 + k % 3 + 1 < |s|
  {
    var i, j := k / 3 * 4 + k % 3, k / 3 * 4 + k % 3 + 1;
    if k % 3 == 0 then Value(s[i]) * 4 + Value(s[j]) / 16
    else if k % 3 == 1 then Value(s[i]) % 16 * 16 + Value(s[j]) / 4
    else Value(s[i]) % 4 * 64 + Value(s[j])
  }

  /** Six bits a letter make as many whole bytes as there are. */
  lemma {:induction false} DecodedLengthOf(s: seq<Byte>)
    requires AllLetters(s) && |s| % 4 != 1
    ensures |DecodeLetters(s)| == |s| * 6 / 8
    decreases |s|
  {
    hide Value;
    if |s| >= 4 {
      DecodedLengthOf(s[4..]);
    }
  }

  lemma {:induction false} DecodedByte(s: seq<Byte>, k: nat)
    requires AllLetters(s) && |s| % 4 != 1 && k < |DecodeLetters(s)|
    ensures k / 3 * 4 + k % 3 + 1 < |s| && DecodeLetters(s)[k] == ByteOf(s, k)
    decreases |s|
  {
    hide Value, ByteOf, Ungroup4, Ungroup3, Ungroup2;
    if |s| >= 4 {
      assert DecodeLetters(s) == Ungroup4(s) + DecodeLetters(s[4..]);
      if k >= 3 {
        DecodedByte(s[4..], k - 3);
        LaterByte(s, k);
      } else {
        FirstByteOf(s, k, Ungroup4(s));
      }
    } else {
      FewLetters(s, k);
    }
  }

  lemma LaterByte(s: seq<Byte>, k: nat)
    requires |s| >= 4 && AllLetters(s) && k >= 3 && (k - 3) / 3 * 4 + (k - 3) % 3 + 1 < |s| - 4
    ensures k / 3 * 4 + k % 3 + 1 < |s| && ByteOf(s, k) == ByteOf(s[4..], k - 3)
  {
    hide Value;
    assert (k - 3) / 3 == k / 3 - 1 && (k - 3) % 3 == k % 3;
  }

  lemma FirstByteOf(s: seq<Byte>, k: nat, g: seq<Byte>)
    requires |s| >= 4 && AllLetters(s) && k < 3 && g == Ungroup4(s)
    ensures k / 3 * 4 + k % 3 + 1 < |s| && g[k] == ByteOf(s, k)
  {
    hide Value;
    if k == 0 { } else if k == 1 { } else { }
  }

  lemma FewLetters(s: seq<Byte>, k: nat)
    requires |s| <= 3 && |s| != 1 && AllLetters(s) && k < |DecodeLetters(s)|
    ensures k / 3 * 4 + k % 3 + 1 < |s| && DecodeLetters(s)[k] == ByteOf(s, k)
  {
    hide Value;
    DecodeLast(s);
    if k == 0 { } else { }
  }

  /** What any string decodes to: the letters before the first '=' or the end decide, and everything
      after a '=' is ignored. */
  lemma DecodeAny(s: seq<Byte>, n: nat)
    requires n <= |s| && AllLetters(s[..n])
    ensures n < |s| && s[n] != PAD && Value(s[n]) == 77 ==> Decode(s) == []
    ensures (n == |s| || s[n] == PAD) && n % 4 == 1 ==> Decode(s) == []
    ensures (n == |s| || s[n] == PAD) && n % 4 != 1 ==>
              && |Decode(s)| == n * 6 / 8
              && forall k :: 0 <= k < |Decode(s)| ==> k / 3 * 4 + k % 3 + 1 < n && Decode(s)[k] == ByteOf(s[..n], k)
  {
    hide Value, DecodeLetters, Scan, ByteOf;
    if n == |s| || s[n] == PAD {
      ScanLetters(s, n);
      if n % 4 != 1 {
        DecodedLengthOf(s[..n]);
        forall k | 0 <= k < |Decode(s)| ensures k / 3 * 4 + k % 3 + 1 < n && Decode(s)[k] == ByteOf(s[..n], k) {
          DecodedByte(s[..n], k);
        }
      }
    } else if Value(s[n]) == 77 {
      BadByte(s, n);
    }
  }

  /** Whole groups of letters, the last one padded to four with the bits it does not use clear. */
  ghost predicate Canonical(s: seq<Byte>)
    decreases |s|
  {
    s == [] || (|s| == 4 && Padded(s)) || (|s| >= 4 && AllLetters(s[..4]) && Canonical(s[4..]))
  }

  /** A padded group: two or three letters whose last one has no bits beyond a whole byte. */
  ghost predicate Padded(s: seq<Byte>)
    requires |s| == 4
  {
    && s[3] == PAD && Value(s[0]) < 64 && Value(s[1]) < 64
    && if s[2] == PAD then Value(s[1]) % 16 == 0 else Value(s[2]) < 64 && Value(s[2]) % 4 == 0
  }

  /** A decoded string encodes back to itself if and only if it is canonical. */
  lemma CanonicalRoundTrip(s: seq<Byte>)
    ensures Canonical(s) <==> Encode(Decode(s)) == s
  {
    if Canonical(s) {
      CanonicalBack(s);
    }
    if Encode(Decode(s)) == s {
      EncodeCanonical(Decode(s));
    }
  }

  lemma {:induction false} EncodeCanonical(x: seq<Byte>)
    ensures Canonical(Encode(x))
    decreases |x|
  {
    var e := Encode(x);
    if |x| >= 3 {
      EncodeCanonical(x[3..]);
      assert e[..4] == Group(x[0], x[1], x[2]) && e[4..] == Encode(x[3..]);
    } else if x != [] {
      ShortPadded(x);
    }
  }

  lemma ShortPadded(x: seq<Byte>)
    requires |x| == 1 || |x| == 2
    ensures |Encode(x)| == 4 && Padded(Encode(x))
  {
    if |x| == 1 {
      assert x[0] % 4 * 16 % 16 == 0;
    } else {
      assert x[1] % 16 * 4 % 4 == 0;
    }
  }

  /** Regrouping six-bit values into bytes and back. */
  lemma Bits(p: nat, q: nat, r: nat, t: nat)
    requires p < 64 && q < 64 && r < 64 && t < 64
    ensures var a, b, c := p * 4 + q / 16, q % 16 * 16 + r / 4, r % 4 * 64 + t;
            a / 4 == p && a % 4 * 16 + b / 16 == q && b % 16 * 4 + c / 64 == r && c % 64 == t
  {
  }

  lemma GroupOfUngroup(s: seq<Byte>)
    requires |s| == 4 && AllLetters(s)
    ensures var x := Ungroup4(s); Group(x[0], x[1], x[2]) == s
  {
    hide Letter, Value;
    LetterOfValue(s[0]);
    LetterOfValue(s[1]);
    LetterOfValue(s[2]);
    LetterOfValue(s[3]);
    Bits(Value(s[0]), Value(s[1]), Value(s[2]), Value(s[3]));
  }

  lemma PaddedBack(s: seq<Byte>)
    requires |s| == 4 && Padded(s)
    ensures Encode(Decode(s)) == s
  {
    hide Letter, Value, Scan, Encode, DecodeLetters, Ungroup2, Ungroup3;
    if s[2] == PAD {
      ScanLetters(s, 2);
      DecodeLast(s[..2]);
      TwoBack(s[..2]);
      var x := Ungroup2(s[..2]);
      EncodeOne(x[0]);
      assert x == [x[0]];
      assert s == s[..2] + [PAD, PAD];
    } else {
      ScanLetters(s, 3);
      DecodeLast(s[..3]);
      ThreeBack(s[..3]);
      var x := Ungroup3(s[..3]);
      EncodeTwo(x[0], x[1]);
      assert x == [x[0], x[1]];
      assert s == s[..3] + [PAD];
    }
  }

  lemma TwoBack(s: seq<Byte>)
    requires |s| == 2 && AllLetters(s) && Value(s[1]) % 16 == 0
    ensures var x := Ungroup2(s); [Letter(x[0] / 4), Letter(x[0] % 4 * 16)] == s
  {
    hide Letter, Value;
    LetterOfValue(s[0]);
    LetterOfValue(s[1]);
    Bits(Value(s[0]), Value(s[1]), 0, 0);
  }

  lemma ThreeBack(s: seq<Byte>)
    requires |s| == 3 && AllLetters(s) && Value(s[2]) % 4 == 0
    ensures var x := Ungroup3(s); [Letter(x[0] / 4), Letter(x[0] % 4 * 16 + x[1] / 16), Letter(x[1] % 16 * 4)] == s
  {
    hide Letter, Value;
    LetterOfValue(s[0]);
    LetterOfValue(s[1]);
    LetterOfValue(s[2]);
    Bits(Value(s[0]), Value(s[1]), Value(s[2]), 0);
  }

  lemma {:induction false} CanonicalBack(s: seq<Byte>)
    requires Canonical(s)
    ensures Scan(s).Some? && Scan(s).value % 4 != 1 && Encode(Decode(s)) == s
    decreases |s|
  {
    hide Group, Ungroup4, Padded, Value, Letter, AllLetters, Scan, Encode, DecodeLetters;
    if s == [] {
      EncodeNone();
      DecodeLast([]);
      ScanLetters([], 0);
    } else if |s| == 4 && Padded(s) {
      PaddedBack(s);
      PaddedScan(s);
    } else {
      CanonicalBack(s[4..]);
      GroupInFront(s[..4], s[4..]);
      assert s == s[..4] + s[4..];
    }
  }

  lemma GroupInFront(g: seq<Byte>, rest: seq<Byte>)
    requires |g| == 4 && AllLetters(g)
    requires Scan(rest).Some? && Scan(rest).value % 4 != 1 && Encode(Decode(rest)) == rest
    ensures var s := g + rest;
            Scan(s).Some? && Scan(s).value % 4 != 1 && Encode(Decode(s)) == s
  {
    hide Group, Ungroup4, Value, Letter, AllLetters, Scan, Encode, DecodeLetters;
    var n := Scan(rest).value;
    LettersAfter(g, rest, n);
    ScanStops(rest);
    ScanLetters(g + rest, n + 4);
    GroupOfUngroup(g);
    EncodeFront(Ungroup4(g), Decode(rest));
  }

  lemma ScanStops(s: seq<Byte>)
    ensures Scan(s).Some? && Scan(s).value < |s| ==> s[Scan(s).value] == PAD
  {
  }

  lemma EncodeFront(x: seq<Byte>, rest: seq<Byte>)
    requires |x| == 3
    ensures Encode(x + rest) == Group(x[0], x[1], x[2]) + Encode(rest)
  {
    assert (x + rest)[3..] == rest;
  }

  lemma PaddedScan(s: seq<Byte>)
    requires |s| == 4 && Padded(s)
    ensures Scan(s) == Some(2) || Scan(s) == Some(3)
  {
    if s[2] == PAD { ScanLetters(s, 2); } else { ScanLetters(s, 3); }
  }

  // ------------------------------------------------------------------- on buffers

  /** The macro for the length of an encoding. */
  function EncodedLength(n: nat): nat {
    (n + 2) / 3 * 4
  }

  lemma ThreeMore(n: nat)
    requires n > 2
    ensures EncodedLength(n) == EncodedLength(n - 3) + 4
  {
  }

  lemma NoLength()
    ensures EncodedLength(0) == 0 && EncodedLength(1) == EncodedLength(2) == 4
  {
  }

  /** base64encode.  The destination has room for the encoded length. */
  method EncodeTo(dst: array<Byte>, src: seq<Byte>) returns (n: nat)
    requires dst.Length >= EncodedLength(|src|)
    modifies dst
    ensures n == EncodedLength(|src|) && dst[..n] == Encode(src)
    ensures forall i :: n <= i < dst.Length ==> dst[i] == old(dst[i])
  {
    hide Encode, DecodeLetters, Letter, Value, Letters, AllLetters, Group, Ungroup4, EncodedLength;
    NoLength();
    EncodeShape(src);
    var s: nat, d: nat, len: nat := 0, 0, |src|;
    assert src[0..] == src && dst[..0] + Encode(src) == Encode(src);
    while len > 2
      invariant s + len == |src| && d + EncodedLength(len) == EncodedLength(|src|)
      invariant dst[..d] + Encode(src[s..]) == Encode(src)
      invariant forall i :: d <= i < dst.Length ==> dst[i] == old(dst[i])
    {
      EncodeGroup(dst[..d], src, s);
      ThreeMore(len);
      PutGroup(dst, d, src[s], src[s + 1], src[s + 2]);
      s, d, len := s + 3, d + 4, len - 3;
    }
    EncodeNone();
    ghost var done := dst[..d];
    assert done + Encode(src[s..]) == Encode(src);
    if len > 0 {
      PutLast(dst, d, src[s..]);
      d := d + 4;
      assert dst[..d] == done + Encode(src[s..]);
    } else {
      assert src[s..] == [] && done + [] == done;
    }
    n := d;
  }

  lemma EncodeGroup(done: seq<Byte>, src: seq<Byte>, s: nat)
    requires s + 3 <= |src|
    ensures done + Encode(src[s..]) == done + Group(src[s], src[s + 1], src[s + 2]) + Encode(src[s + 3..])
  {
    assert src[s..][3..] == src[s + 3..];
  }

  lemma EncodeNone()
    ensures Encode([]) == []
  {
  }

  lemma EncodeOne(a: Byte)
    ensures Encode([a]) == [Letter(a / 4), Letter(a % 4 * 16), PAD, PAD]
  {
    hide Letter, Value, AllLetters, Ungroup2;
    assert Encode([a]) == Group1(a) + [PAD, PAD];
  }

  lemma EncodeTwo(a: Byte, b: Byte)
    ensures Encode([a, b]) == [Letter(a / 4), Letter(a % 4 * 16 + b / 16), Letter(b % 16 * 4), PAD]
  {
    hide Letter, Value, AllLetters, Ungroup3;
    assert Encode([a, b]) == Group2(a, b) + [PAD];
  }

  method PutGroup(dst: array<Byte>, d: nat, a: Byte, b: Byte, c: Byte)
    requires d + 4 <= dst.Length
    modifies dst
    ensures dst[..d + 4] == old(dst[..d]) + Group(a, b, c)
    ensures forall i :: d + 4 <= i < dst.Length ==> dst[i] == old(dst[i])
  {
    dst[d] := Letter(a / 4);
    dst[d + 1] := Letter(a % 4 * 16 + b / 16);
    dst[d + 2] := Letter(b % 16 * 4 + c / 64);
    dst[d + 3] := Letter(c % 64);
  }

  /** The one or two bytes left over, with their padding. */
  method PutLast(dst: array<Byte>, d: nat, x: seq<Byte>)
    requires d + 4 <= dst.Length && 1 <= |x| <= 2
    modifies dst
    ensures dst[..d + 4] == old(dst[..d]) + Encode(x)
    ensures forall i :: d + 4 <= i < dst.Length ==> dst[i] == old(dst[i])
  {
    hide Encode, Letter;
    dst[d] := Letter(x[0] / 4);
    if |x| == 1 {
      EncodeOne(x[0]);
      assert x == [x[0]];
      dst[d + 1] := Letter(x[0] % 4 * 16);
      dst[d + 2] := PAD;
    } else {
      EncodeTwo(x[0], x[1]);
      assert x == [x[0], x[1]];
      dst[d + 1] := Letter(x[0] % 4 * 16 + x[1] / 16);
      dst[d + 2] := Letter(x[1] % 16 * 4);
    }
    dst[d + 3] := PAD;
  }

  /** The macro for the room a decoded string may take. */
  function DecodedLength(n: nat): nat {
    (n + 3) / 4 * 3
  }

  lemma GroupLength(n: nat)
    requires n > 3
    ensures DecodedLength(n) == DecodedLength(n - 4) + 3 && (n - 4) % 4 == n % 4
  {
  }

  /** base64_decode_internal with the standard table, where 0 bytes also stand for an error.  The
      destination has room for the decoded length. */
  method DecodeTo(dst: array<Byte>, src: seq<Byte>) returns (n: nat)
    requires dst.Length >= DecodedLength(|src|)
    modifies dst
    ensures n == |Decode(src)| && n <= dst.Length && dst[..n] == Decode(src)
    ensures forall i :: n <= i < dst.Length ==> dst[i] == old(dst[i])
  {
    hide DecodeLetters;
    var len: nat := 0;
    while len < |src| && src[len] != PAD
      invariant len <= |src| && AllLetters(src[..len])
    {
      if Value(src[len]) == 77 {
        BadByte(src, len);
        return 0;
      }
      len := len + 1;
    }
    ScanLetters(src, len);
    if len % 4 == 1 {
      return 0;
    }
    n := DecodeRun(dst, src[..len]);
  }

  /** A byte outside the alphabet before any padding. */
  lemma {:induction false} BadByte(s: seq<Byte>, k: nat)
    requires k < |s| && AllLetters(s[..k]) && Value(s[k]) == 77 && s[k] != PAD
    ensures Scan(s) == None
    decreases k
  {
    if k > 0 {
      assert s[0] == s[..k][0];
      assert s[1..][..k - 1] == s[..k][1..];
      BadByte(s[1..], k - 1);
    }
  }

  /** The loop over whole groups of letters, and what is left over. */
  method DecodeRun(dst: array<Byte>, src: seq<Byte>) returns (d: nat)
    requires AllLetters(src) && |src| % 4 != 1 && dst.Length >= DecodedLength(|src|)
    modifies dst
    ensures d == |DecodeLetters(src)| && d <= dst.Length && dst[..d] == DecodeLetters(src)
    ensures forall i :: d <= i < dst.Length ==> dst[i] == old(dst[i])
  {
    hide DecodeLetters, Value, Ungroup2, Ungroup3, Ungroup4, AllLetters, DecodedLength;
    d := 0;
    var s: nat, len: nat := 0, |src|;
    assert src[0..] == src && dst[..0] + DecodeLetters(src) == DecodeLetters(src);
    while len > 3
      invariant s + len == |src| && len % 4 != 1 && d + DecodedLength(len) <= dst.Length
      invariant AllLetters(src[s..]) && dst[..d] + DecodeLetters(src[s..]) == DecodeLetters(src)
      invariant forall i :: d <= i < dst.Length ==> dst[i] == old(dst[i])
    {
      DecodeGroup(dst[..d], src, s);
      GroupLength(len);
      PutBytes(dst, d, Ungroup4(src[s..]));
      s, d, len := s + 4, d + 3, len - 4;
    }
    var last := LastBytes(src[s..]);
    PutBytes(dst, d, last);
    d := d + |last|;
  }

  /** The bytes of fewer than four letters. */
  function LastBytes(x: seq<Byte>): (r: seq<Byte>)
    requires |x| <= 3 && |x| != 1 && AllLetters(x)
    ensures r == DecodeLetters(x) && |r| <= DecodedLength(|x|)
  {
    DecodeLast(x);
    if |x| == 2 then Ungroup2(x) else if |x| == 3 then Ungroup3(x) else []
  }

  lemma DecodeGroup(done: seq<Byte>, src: seq<Byte>, s: nat)
    requires s + 4 <= |src| && AllLetters(src[s..])
    ensures AllLetters(src[s + 4..])
    ensures done + DecodeLetters(src[s..]) == done + Ungroup4(src[s..]) + DecodeLetters(src[s + 4..])
  {
    assert src[s..][4..] == src[s + 4..];
  }

  lemma DecodeLast(x: seq<Byte>)
    requires |x| <= 3 && |x| != 1 && AllLetters(x)
    ensures DecodeLetters(x) == if |x| == 2 then Ungroup2(x) else if |x| == 3 then Ungroup3(x) else []
  {
  }

  /** Up to three bytes stored one after the other. */
  method PutBytes(dst: array<Byte>, d: nat, x: seq<Byte>)
    requires d + |x| <= dst.Length && |x| <= 3
    modifies dst
    ensures dst[..d + |x|] == old(dst[..d]) + x
    ensures forall i :: d + |x| <= i < dst.Length ==> dst[i] == old(dst[i])
  {
    if |x| > 0 { dst[d] := x[0]; }
    if |x| > 1 { dst[d + 1] := x[1]; }
    if |x| > 2 { dst[d + 2] := x[2]; }
  }
}
