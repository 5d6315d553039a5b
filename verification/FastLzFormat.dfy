/**
 The FastLZ block format, independently of how blocks are made or executed.

 A block is a list of tokens: a literal run, or a match that copies `len` bytes starting
 `dist` bytes behind the end of the output.  `Expand` gives tokens their meaning, `Encode`
 their bytes, and `Parse` recovers the tokens from arbitrary bytes.
 */
module FastLzFormat {
  import opened Bytes

  const MAX_COPY := 32
  const MAX_LEN := 264
  const WORD := 0x1_0000_0000

  /** `Cut` is what a literal run reaching past the end of the input parses to. */
  datatype Token = Literal(bytes: seq<Byte>) | Match(len: nat, dist: nat) | Cut

  /** Level 1 accepts distances below this; level 2 uses it as the near/far border. */
  function MaxDistance(level: int): nat {
    if level == 1 then 8192 else 8191
  }

  /** The exclusive bound on match distances. */
  function DistanceLimit(level: int): nat {
    if level == 1 then 8192 else 65535 + 8191 - 1
  }

  predicate IsLevel(level: int) {
    level == 1 || level == 2
  }

  // ------------------------------------------------------------------- meaning

  /** Append `n` bytes, each equal to the byte `dist` positions before it. */
  function CopyBack(s: seq<Byte>, dist: nat, n: nat): (r: seq<Byte>)
    requires 1 <= dist <= |s|
    ensures |r| == |s| + n && s <= r
    ensures forall i :: |s| <= i < |r| ==> r[i] == r[i - dist]
    decreases n
  {
    if n == 0 then s else CopyBack(s + [s[|s| - dist]], dist, n - 1)
  }

  /** The two ensures of `CopyBack` leave exactly one sequence. */
  lemma {:induction false} CopyBackUnique(s: seq<Byte>, dist: nat, n: nat, r: seq<Byte>)
    requires 1 <= dist <= |s|
    requires |r| == |s| + n && s <= r
    requires forall i :: |s| <= i < |r| ==> r[i] == r[i - dist]
    ensures r == CopyBack(s, dist, n)
    decreases n
  {
    if n > 0 {
      var s' := s + [s[|s| - dist]];
      assert r[|s|] == r[|s| - dist] == s[|s| - dist];
      assert s' <= r;
      CopyBackUnique(s', dist, n - 1, r);
    } else {
      assert r == s;
    }
  }

  /** Execute one token; a match may only copy from output already written. */
  function Apply(t: Token, out: seq<Byte>): (r: Option<seq<Byte>>)
    ensures r.Some? ==> out <= r.value
  {
    match t
    case Literal(bytes) => Some(out + bytes)
    case Match(len, dist) => if 1 <= dist <= |out| then Some(CopyBack(out, dist, len)) else None
    case Cut => None
  }

  function Expand(toks: seq<Token>, out: seq<Byte>): (r: Option<seq<Byte>>)
    ensures r.Some? ==> out <= r.value
  {
    if toks == [] then Some(out)
    else
      match Apply(toks[0], out)
      case None => None
      case Some(out') => Expand(toks[1..], out')
  }

  lemma {:induction false} ExpandAppend(toks: seq<Token>, t: Token, out: seq<Byte>)
    ensures Expand(toks + [t], out) ==
            match Expand(toks, out) case None => None case Some(mid) => Apply(t, mid)
  {
    var all := toks + [t];
    if toks == [] {
      assert all[1..] == [];
    } else {
      assert all[0] == toks[0] && all[1..] == toks[1..] + [t];
      match Apply(toks[0], out)
      case None =>
      case Some(out') => ExpandAppend(toks[1..], t, out');
    }
  }

  // ------------------------------------------------------------------- encoding

  ghost predicate ValidToken(level: int, t: Token) {
    match t
    case Literal(bytes) => 1 <= |bytes| <= MAX_COPY
    case Match(len, dist) =>
      && 3 <= len < WORD
      && 1 <= dist < DistanceLimit(level)
      && (level == 1 ==> len <= MAX_LEN)
    case Cut => false
  }

  /** A length excess: one 255 for every whole 255, then the remainder. */
  function Excess(n: nat): seq<Byte> {
    if n < 255 then [n] else [255] + Excess(n - 255)
  }

  /** The length field of a match (at most 7), and the top five bits `hi` of its distance. */
  function Lead(field: nat, hi: nat): Byte
    requires field <= 7 && hi <= 31
  {
    32 * field + hi
  }

  /** The first byte of a level 2 match, and what is left of its length. */
  function LengthBytes(n: nat, hi: nat): seq<Byte>
    requires hi <= 31
  {
    if n < 7 then [Lead(n, hi)] else [Lead(7, hi)] + Excess(n - 7)
  }

  /** The bytes of a match with biased length `n` (match length minus 2) and biased
      distance `d` (distance minus 1). */
  function EncodeMatch(level: int, n: nat, d: nat): seq<Byte>
    requires d + 1 < DistanceLimit(level)
    requires level == 1 ==> n <= MAX_LEN - 2
  {
    if level == 1 then
      if n < 7 then [Lead(n, d / 256), d % 256] else [Lead(7, d / 256), n - 7, d % 256]
    else if d < 8191 then LengthBytes(n, d / 256) + [d % 256]
    else
      var far := d - 8191;
      LengthBytes(n, 31) + [255, far / 256, far % 256]
  }

  /** The bytes of the five forms, at the edges of their ranges. */
  lemma FormsAtTheEdges()
    ensures EncodeMatch(1, 1, 0) == [0x20, 0] && EncodeMatch(1, 6, 8190) == [0xdf, 0xfe]
    ensures EncodeMatch(1, 7, 256) == [0xe1, 0, 0] && EncodeMatch(1, 262, 255) == [0xe0, 255, 255]
    ensures EncodeMatch(2, 6, 8190) == [0xdf, 0xfe] && EncodeMatch(2, 7, 258) == [0xe1, 0, 2]
    ensures EncodeMatch(2, 262, 1) == [0xe0, 255, 0, 1] && EncodeMatch(2, 261, 1) == [0xe0, 254, 1]
    ensures EncodeMatch(2, 3, 8191) == [0x7f, 255, 0, 0] && EncodeMatch(2, 7, 8191 + 259) == [0xff, 0, 255, 1, 3]
  {
    assert Excess(255) == [255] + Excess(0) == [255, 0];
    assert [0xe0] + [255, 0] + [1] == [0xe0, 255, 0, 1];
    assert LengthBytes(262, 0) == [0xe0, 255, 0];
  }

  function EncodeToken(level: int, t: Token): seq<Byte>
    requires ValidToken(level, t)
  {
    match t
    case Literal(bytes) => [|bytes| - 1] + bytes
    case Match(len, dist) => EncodeMatch(level, len - 2, dist - 1)
  }

  ghost predicate ValidTokens(level: int, toks: seq<Token>) {
    forall i :: 0 <= i < |toks| ==> ValidToken(level, toks[i])
  }

  function Encode(level: int, toks: seq<Token>): seq<Byte>
    requires ValidTokens(level, toks)
  {
    if toks == [] then [] else EncodeToken(level, toks[0]) + Encode(level, toks[1..])
  }

  lemma {:induction false} EncodeAppend(level: int, toks: seq<Token>, t: Token)
    requires ValidTokens(level, toks) && ValidToken(level, t)
    ensures ValidTokens(level, toks + [t])
    ensures Encode(level, toks + [t]) == Encode(level, toks) + EncodeToken(level, t)
  {
    hide EncodeToken;
    var all := toks + [t];
    if toks == [] {
      assert all == [t] && all[1..] == [];
    } else {
      assert all[0] == toks[0] && all[1..] == toks[1..] + [t];
      EncodeAppend(level, toks[1..], t);
    }
  }

  // ------------------------------------------------------------------- parsing

  datatype Header = Header(len: nat, dist: nat, next: nat)

  /** Add up length bytes while they are 255, in 32-bit arithmetic. */
  function ReadExcess(input: seq<Byte>, ip: nat, len: nat): (r: (nat, nat))
    ensures r.1 > ip
    decreases |input| - ip
  {
    var code := At(input, ip);
    var len' := (len + code) % WORD;
    if code == 255 then ReadExcess(input, ip + 1, len') else (len', ip + 1)
  }

  /** The match announced by `ctrl >= 32`, whose further bytes start at `ip`. */
  function ReadMatch(level: int, input: seq<Byte>, ctrl: Byte, ip: nat): (r: Header)
    requires ctrl >= 32
    ensures r.next > ip && r.len >= 3 && r.dist >= 1
  {
    var field, ofs := ctrl / 32 - 1, ctrl % 32 * 256;
    if level == 1 then
      if field == 6 then Header(field + At(input, ip) + 3, ofs + At(input, ip + 1) + 1, ip + 2)
      else Header(field + 3, ofs + At(input, ip) + 1, ip + 1)
    else
      var (len, ip) := if field == 6 then ReadExcess(input, ip, field) else (field, ip);
      var code := At(input, ip);
      if code == 255 && ofs == 31 * 256 then
        Header(len + 3, At(input, ip + 1) * 256 + At(input, ip + 2) + 8191 + 1, ip + 3)
      else
        Header(len + 3, ofs + code + 1, ip + 1)
  }

  /** The token announced by a control byte, and where the next control byte is; `ip` is the
      position after this one. */
  function ReadToken(level: int, input: seq<Byte>, ctrl: Byte, ip: nat): (r: (Token, nat))
    ensures r.1 > ip
  {
    if ctrl >= 32 then
      var h := ReadMatch(level, input, ctrl, ip);
      (Match(h.len, h.dist), h.next)
    else
      (if ip + ctrl + 1 > |input| then Cut else Literal(input[ip..ip + ctrl + 1]), ip + ctrl + 1)
  }

  /** The tokens of a block from a control byte on. */
  function Parse(level: int, input: seq<Byte>, ctrl: Byte, ip: nat): seq<Token>
    decreases |input| - ip
  {
    var (t, next) := ReadToken(level, input, ctrl, ip);
    [t] + if next < |input| then Parse(level, input, input[next], next + 1) else []
  }

  /** The tokens of a whole block: the first control byte only keeps its low five bits. */
  function ParseBlock(level: int, block: seq<Byte>): seq<Token> {
    Parse(level, block, At(block, 0) % 32, 1)
  }

  // ------------------------------------------------------------------- parsing inverts encoding

  lemma {:induction false} ExcessRoundTrip(input: seq<Byte>, ip: nat, n: nat, len: nat)
    requires len + n < WORD
    requires ip + |Excess(n)| <= |input| && input[ip..ip + |Excess(n)|] == Excess(n)
    ensures ReadExcess(input, ip, len) == (len + n, ip + |Excess(n)|)
    decreases n
  {
    assert input[ip] == Excess(n)[0];
    if n >= 255 {
      assert input[ip + 1..ip + |Excess(n)|] == Excess(n)[1..] == Excess(n - 255);
      ExcessRoundTrip(input, ip + 1, n - 255, len + 255);
    }
  }

  lemma SliceAt<T>(s: seq<T>, i: nat, e: seq<T>)
    requires i + |e| <= |s| && s[i..i + |e|] == e
    ensures forall k :: i <= k < i + |e| ==> s[k] == e[k - i]
  {
    forall k | i <= k < i + |e| ensures s[k] == e[k - i] {
      assert s[k] == s[i..i + |e|][k - i];
    }
  }

  /** A match is read back as encoded: in particular the far marker is unambiguous, because a
      near distance whose top bits are 31 never has 255 as its low byte. */
  lemma MatchRoundTrip(level: int, input: seq<Byte>, ip: nat, t: Token)
    requires IsLevel(level) && t.Match? && ValidToken(level, t)
    requires ip + |EncodeToken(level, t)| <= |input|
    requires input[ip..ip + |EncodeToken(level, t)|] == EncodeToken(level, t)
    ensures |EncodeToken(level, t)| > 1 && input[ip] >= 32
    ensures ReadMatch(level, input, input[ip], ip + 1) == Header(t.len, t.dist, ip + |EncodeToken(level, t)|)
  {
    var e, n, d := EncodeToken(level, t), t.len - 2, t.dist - 1;
    SliceAt(input, ip, e);
    if level == 2 && n >= 7 {
      LongMatchRoundTrip(input, ip, n, d);
    } else if d >= 8191 {
      assert At(input, ip + 2) == (d - 8191) / 256 && At(input, ip + 3) == (d - 8191) % 256;
    }
  }

  lemma LongMatchRoundTrip(input: seq<Byte>, ip: nat, n: nat, d: nat)
    requires 7 <= n < WORD - 2 && d + 1 < DistanceLimit(2)
    requires ip + |EncodeMatch(2, n, d)| <= |input|
    requires input[ip..ip + |EncodeMatch(2, n, d)|] == EncodeMatch(2, n, d)
    ensures |EncodeMatch(2, n, d)| > 1 && input[ip] >= 32
    ensures ReadMatch(2, input, input[ip], ip + 1) == Header(n + 2, d + 1, ip + |EncodeMatch(2, n, d)|)
  {
    hide Excess, ReadExcess;
    var e, x := EncodeMatch(2, n, d), Excess(n - 7);
    SliceAt(input, ip, e);
    assert LengthBytes(n, if d < 8191 then d / 256 else 31)[1..] == x;
    assert e[1..1 + |x|] == x;
    assert input[ip + 1..ip + 1 + |x|] == e[1..1 + |x|];
    ExcessRoundTrip(input, ip + 1, n - 7, 6);
    var k := ip + 1 + |x|;
    if d < 8191 {
      assert input[k] == d % 256;
    } else {
      assert input[k] == 255 && input[k + 1] == (d - 8191) / 256 && input[k + 2] == (d - 8191) % 256;
    }
  }

  lemma TokenRoundTrip(level: int, input: seq<Byte>, ip: nat, t: Token)
    requires IsLevel(level) && ValidToken(level, t)
    requires ip + |EncodeToken(level, t)| <= |input|
    requires input[ip..ip + |EncodeToken(level, t)|] == EncodeToken(level, t)
    ensures |EncodeToken(level, t)| > 1
    ensures ReadToken(level, input, input[ip], ip + 1) == (t, ip + |EncodeToken(level, t)|)
  {
    var e := EncodeToken(level, t);
    if t.Match? {
      MatchRoundTrip(level, input, ip, t);
    } else {
      assert input[ip] == input[ip..ip + |e|][0] == |t.bytes| - 1;
      assert input[ip + 1..ip + |e|] == e[1..] == t.bytes;
    }
  }

  lemma {:induction false} ParseEncoded(level: int, input: seq<Byte>, ip: nat, toks: seq<Token>)
    requires IsLevel(level) && ValidTokens(level, toks) && toks != []
    requires ip <= |input| && input[ip..] == Encode(level, toks)
    ensures ip < |input| && Parse(level, input, input[ip], ip + 1) == toks
    decreases |toks|
  {
    hide EncodeToken, ReadToken;
    var e, rest := EncodeToken(level, toks[0]), Encode(level, toks[1..]);
    SplitSuffix(input, ip, e, rest);
    TokenRoundTrip(level, input, ip, toks[0]);
    if toks[1..] != [] {
      ParseEncoded(level, input, ip + |e|, toks[1..]);
    }
  }

  lemma SplitSuffix<T>(s: seq<T>, i: nat, a: seq<T>, b: seq<T>)
    requires i <= |s| && s[i..] == a + b
    ensures i + |a| <= |s| && s[i..i + |a|] == a && s[i + |a|..] == b
  {
    assert s[i..][..|a|] == a && s[i..][|a|..] == b;
  }

  /** Bit 5 of a byte set. */
  function WithMarker(b: Byte): Byte {
    if b / 32 % 2 == 0 then b + 32 else b
  }

  /** A level 2 block carries a marker in bit 5 of its first byte. */
  function Marked(level: int, block: seq<Byte>): seq<Byte>
    requires block != []
  {
    if level == 2 then [WithMarker(block[0])] + block[1..] else block
  }

  /** A block that starts with a literal run parses back to its tokens, and its first byte
      names its level. */
  lemma ParseBlockRoundTrip(level: int, toks: seq<Token>)
    requires IsLevel(level) && ValidTokens(level, toks) && toks != [] && toks[0].Literal?
    ensures var block := Marked(level, Encode(level, toks));
            && ParseBlock(level, block) == toks
            && block[0] / 32 + 1 == level
  {
    hide EncodeToken, ReadToken;
    var t, rest := toks[0], Encode(level, toks[1..]);
    var ip := MarkedLiteral(level, t, rest);
    var block := Marked(level, Encode(level, toks));
    assert toks == [t] + toks[1..];
    if toks[1..] != [] {
      ParseEncoded(level, block, ip, toks[1..]);
    }
  }

  lemma MarkedLiteral(level: int, t: Token, rest: seq<Byte>) returns (next: nat)
    requires IsLevel(level) && ValidToken(level, t) && t.Literal?
    ensures EncodeToken(level, t) != []
    ensures var block := Marked(level, EncodeToken(level, t) + rest);
            && next <= |block| && block[next..] == rest
            && block[0] / 32 + 1 == level
            && ReadToken(level, block, block[0] % 32, 1) == (t, next)
  {
    hide EncodeMatch, ReadMatch;
    var first: Byte := |t.bytes| - 1;
    var plain := [first] + (t.bytes + rest);
    assert EncodeToken(level, t) + rest == plain;
    var block := Marked(level, plain);
    assert block[1..] == t.bytes + rest;
    SplitSuffix(block, 1, t.bytes, rest);
    next := 1 + |t.bytes|;
    assert block[0] % 32 == first && next == 1 + first + 1;
  }
}
