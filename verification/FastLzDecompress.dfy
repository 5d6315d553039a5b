/**
 The FastLZ decompressor.  Both ways the C code copies a match, byte by byte or by 16-bit
 words (the compile-time choice STRICT_ALIGN), and the fill used at distance 1, are proved
 to write what the tokens of the block mean.
 */
module FastLzDecompress {
  import opened Bytes
  import opened FastLzFormat

  /** What a decompressor with `maxout` bytes of room leaves: the size and the bytes. */
  function Decoded(toks: seq<Token>, maxout: nat): Option<seq<Byte>> {
    var r := Expand(toks, []);
    if r.Some? && |r.value| <= maxout then r else None
  }

  /** Length bytes of a level 2 match: a do-while loop over 255s, in 32-bit arithmetic. */
  method ReadExcessLoop(input: seq<Byte>, start: nat, field: nat) returns (len: nat, ip: nat)
    ensures (len, ip) == ReadExcess(input, start, field)
  {
    ip := start;
    len := field;
    var code: Byte := 255;
    while code == 255
      invariant ip >= start
      invariant if code == 255 then ReadExcess(input, ip, len) == ReadExcess(input, start, field)
                else (len, ip) == ReadExcess(input, start, field)
      decreases code == 255, |input| - ip
    {
      code := At(input, ip);
      ip := ip + 1;
      len := (len + code) % WORD;
    }
  }

  /** The header of a match, as the C code steps through it; `back` is `op - ref + 1`. */
  method ReadHeader(level: int, input: seq<Byte>, ctrl: Byte, start: nat)
      returns (len: nat, back: nat, ip: nat)
    requires IsLevel(level) && ctrl >= 32
    ensures Header(len + 3, back, ip) == ReadMatch(level, input, ctrl, start)
  {
    ip := start;
    len := ctrl / 32 - 1;
    var ofs := ctrl % 32 * 256;
    back := ofs;
    if level == 1 {
      if len == 7 - 1 {
        len := len + At(input, ip);
        ip := ip + 1;
      }
      back := back + At(input, ip) + 1;
      ip := ip + 1;
    } else {
      if len == 7 - 1 {
        len, ip := ReadExcessLoop(input, ip, len);
      }
      var code := At(input, ip);
      ip := ip + 1;
      back := back + code + 1;
      if code == 255 && ofs == 31 * 256 {
        ofs := At(input, ip) * 256;
        ofs := ofs + At(input, ip + 1);
        ip := ip + 2;
        back := ofs + MaxDistance(2) + 1;
      }
    }
  }

  /** Every byte of `a` from `lo` up to `hi` equals the byte `dist` before it. */
  ghost predicate Repeats(a: array<Byte>, lo: nat, hi: nat, dist: nat)
    requires 1 <= dist <= lo && hi <= a.Length
    reads a
  {
    forall i :: lo <= i < hi ==> a[i] == a[i - dist]
  }

  /** The fill for a match at distance 1. */
  method FillRun(output: array<Byte>, op0: nat, len: nat) returns (op: nat)
    requires 1 <= op0 && op0 + len + 3 <= output.Length
    modifies output
    ensures op == op0 + len + 3 && Repeats(output, op0, op, 1)
    ensures forall i :: (0 <= i < op0 || op <= i < output.Length) ==> output[i] == old(output[i])
  {
    op := op0;
    var b := output[op - 1];
    output[op] := b;
    output[op + 1] := b;
    output[op + 2] := b;
    op := op + 3;
    var n := len;
    while n > 0
      invariant op + n == op0 + len + 3
      invariant forall i :: op0 - 1 <= i < op ==> output[i] == b
      invariant forall i :: (0 <= i < op0 || op <= i < output.Length) ==> output[i] == old(output[i])
    {
      output[op] := b;
      op := op + 1;
      n := n - 1;
    }
  }

  /** Copy `n` bytes one at a time, as under STRICT_ALIGN. */
  method CopyBytes(output: array<Byte>, op0: nat, dist: nat, n: nat) returns (op: nat)
    requires 1 <= dist <= op0 && op0 + n <= output.Length
    modifies output
    ensures op == op0 + n && Repeats(output, op0, op, dist)
    ensures forall i :: (0 <= i < op0 || op <= i < output.Length) ==> output[i] == old(output[i])
  {
    op := op0;
    var left := n;
    while left > 0
      invariant op + left == op0 + n
      invariant Repeats(output, op0, op, dist)
      invariant forall i :: (0 <= i < op0 || op <= i < output.Length) ==> output[i] == old(output[i])
    {
      output[op] := output[op - dist];
      op := op + 1;
      left := left - 1;
    }
  }

  /** One 16-bit move: both source bytes are read before either is written. */
  method MoveWord(output: array<Byte>, q: nat, p: nat)
    requires p + 2 <= q && q + 2 <= output.Length
    modifies output
    ensures output[q] == output[p] && output[q + 1] == output[p + 1]
    ensures forall i :: 0 <= i < output.Length && i != q && i != q + 1 ==> output[i] == old(output[i])
  {
    var lo, hi := output[p], output[p + 1];
    output[q] := lo;
    output[q + 1] := hi;
  }

  method MoveFourWords(output: array<Byte>, q: nat, dist: nat)
    requires 2 <= dist <= q && q + 8 <= output.Length
    modifies output
    ensures Repeats(output, q, q + 8, dist)
    ensures forall i :: (0 <= i < q || q + 8 <= i < output.Length) ==> output[i] == old(output[i])
  {
    MoveWord(output, q, q - dist);
    MoveWord(output, q + 2, q + 2 - dist);
    MoveWord(output, q + 4, q + 4 - dist);
    MoveWord(output, q + 6, q + 6 - dist);
  }

  /** Copy by 16-bit words, four at a time while more than four remain.  A word copy equals
      the overlapping byte copy because a distance of 1 never gets here. */
  method CopyWords(output: array<Byte>, op0: nat, dist: nat, n: nat) returns (op: nat)
    requires 2 <= dist <= op0 && op0 + n <= output.Length
    modifies output
    ensures op == op0 + n && Repeats(output, op0, op, dist)
    ensures forall i :: (0 <= i < op0 || op <= i < output.Length) ==> output[i] == old(output[i])
  {
    op := CopyBytes(output, op0, dist, n % 2);
    var len: nat := n - n % 2;
    var q := op;
    op := op + len;
    len := len / 2;
    while len > 4
      invariant q + 2 * len == op
      invariant op0 <= q && Repeats(output, op0, q, dist)
      invariant forall i :: (0 <= i < op0 || q <= i < output.Length) ==> output[i] == old(output[i])
    {
      MoveFourWords(output, q, dist);
      q := q + 8;
      len := len - 4;
    }
    while len > 0
      invariant q + 2 * len == op
      invariant op0 <= q && Repeats(output, op0, q, dist)
      invariant forall i :: (0 <= i < op0 || q <= i < output.Length) ==> output[i] == old(output[i])
    {
      MoveWord(output, q, q - dist);
      q := q + 2;
      len := len - 1;
    }
  }

  /** A match of `len + 3` bytes at distance `back`. */
  method CopyMatch(strictAlign: bool, output: array<Byte>, op0: nat, back: nat, len: nat) returns (op: nat)
    requires 1 <= back <= op0 && op0 + len + 3 <= output.Length
    modifies output
    ensures op == op0 + len + 3
    ensures output[..op] == CopyBack(old(output[..op0]), back, len + 3)
    ensures output[op..] == old(output[op0 + len + 3..])
  {
    if back == 1 {
      op := FillRun(output, op0, len);
    } else {
      op := CopyBytes(output, op0, back, 3);
      if strictAlign {
        op := CopyBytes(output, op, back, len);
      } else {
        op := CopyWords(output, op, back, len);
      }
    }
    assert Repeats(output, op0, op, back);
    assert forall i :: op <= i < output.Length ==> output[i] == old(output[i]);
    CopyBackUnique(old(output[..op0]), back, len + 3, output[..op]);
  }

  /** A literal run of `n >= 1` bytes: the first byte, then a loop over the rest. */
  method CopyLiteral(input: seq<Byte>, ip: nat, output: array<Byte>, op0: nat, n: nat) returns (op: nat)
    requires n >= 1 && ip + n <= |input| && op0 + n <= output.Length
    modifies output
    ensures op == op0 + n
    ensures output[..op] == old(output[..op0]) + input[ip..ip + n]
    ensures output[op..] == old(output[op0 + n..])
  {
    output[op0] := input[ip];
    op := op0 + 1;
    var left := n - 1;
    while left > 0
      invariant op + left == op0 + n && op > op0
      invariant forall i :: op0 <= i < op ==> output[i] == input[ip + i - op0]
      invariant forall i :: (0 <= i < op0 || op <= i < output.Length) ==> output[i] == old(output[i])
    {
      output[op] := input[ip + op - op0];
      op := op + 1;
      left := left - 1;
    }
  }

  /** The state of the main loop: the output so far, and the tokens still to execute. */
  ghost predicate Running(toks: seq<Token>, rest: seq<Token>, out: seq<Byte>) {
    Expand(toks, []) == Expand(rest, out)
  }

  /** Executing the token at the head of `rest` moves the loop on by one token. */
  lemma Advance(toks: seq<Token>, t: Token, rest: seq<Token>, out: seq<Byte>, out': seq<Byte>)
    requires Running(toks, [t] + rest, out)
    requires Apply(t, out) == Some(out')
    ensures Running(toks, rest, out')
  {
    assert ([t] + rest)[1..] == rest;
  }

  /** A token that cannot be executed within `maxout` makes the whole block fail. */
  lemma Fails(toks: seq<Token>, t: Token, rest: seq<Token>, out: seq<Byte>, maxout: nat)
    requires Running(toks, [t] + rest, out)
    requires Apply(t, out).None? || |Apply(t, out).value| > maxout
    ensures Decoded(toks, maxout) == None
  {
    assert ([t] + rest)[1..] == rest;
  }

  /** The tokens from the control byte at `ip` on, if there is one. */
  function ParseFrom(level: int, input: seq<Byte>, ip: nat): seq<Token> {
    if ip < |input| then Parse(level, input, input[ip], ip + 1) else []
  }

  /** One turn of the main loop, up to the fetch of the next control byte. */
  method Step(level: int, strictAlign: bool, input: seq<Byte>, output: array<Byte>, maxout: nat,
              ctrl: Byte, ip0: nat, op0: nat, ghost toks: seq<Token>)
      returns (ok: bool, ip: nat, op: nat)
    requires IsLevel(level) && op0 <= maxout <= output.Length
    requires Running(toks, Parse(level, input, ctrl, ip0), output[..op0])
    modifies output
    ensures output[maxout..] == old(output[maxout..])
    ensures ok ==> ip > ip0 && op <= maxout && Running(toks, ParseFrom(level, input, ip), output[..op])
    ensures !ok ==> Decoded(toks, maxout) == None
  {
    hide ReadMatch, Running;
    ip, op := ip0, op0;
    ghost var out := output[..op];
    ghost var (t, next) := ReadToken(level, input, ctrl, ip);
    ghost var rest := ParseFrom(level, input, next);
    ok := false;
    if ctrl >= 32 {
      var len, back;
      len, back, ip := ReadHeader(level, input, ctrl, ip);
      if op + len + 3 > maxout || back > op {
        Fails(toks, t, rest, out, maxout);
        return;
      }
      op := CopyMatch(strictAlign, output, op, back, len);
    } else {
      var n := ctrl + 1;
      if op + n > maxout || ip + n > |input| {
        Fails(toks, t, rest, out, maxout);
        return;
      }
      op := CopyLiteral(input, ip, output, op, n);
      ip := ip + n;
    }
    Advance(toks, t, rest, out, output[..op]);
    ok := true;
    SuffixKept(output[..], old(output[..]), op, maxout);
  }

  lemma SuffixKept(a: seq<Byte>, b: seq<Byte>, op: nat, maxout: nat)
    requires |a| == |b| && op <= maxout <= |a| && a[op..] == b[op..]
    ensures a[maxout..] == b[maxout..]
  {
    assert a[maxout..] == a[op..][maxout - op..];
    assert b[maxout..] == b[op..][maxout - op..];
  }

  /** Decompress a block of arbitrary bytes.  0 means failure; nothing past `maxout` is ever
      written; otherwise the output is what the tokens of the block mean. */
  method Decompress(level: int, strictAlign: bool, input: seq<Byte>, output: array<Byte>, maxout: nat)
      returns (size: nat)
    requires IsLevel(level) && maxout <= output.Length
    modifies output
    ensures output[maxout..] == old(output[maxout..])
    ensures match Decoded(ParseBlock(level, input), maxout)
            case None => size == 0
            case Some(x) => size == |x| <= maxout && output[..size] == x
  {
    hide ReadToken, Expand;
    ghost var toks := ParseBlock(level, input);
    assert output[..0] == [];
    var ctrl: Byte := At(input, 0) % 32;
    var ip, op: nat, loop := 1, 0, true;
    while loop
      invariant op <= maxout
      invariant Running(toks, if loop then Parse(level, input, ctrl, ip) else [], output[..op])
      invariant output[maxout..] == old(output[maxout..])
      decreases loop, |input| - ip
    {
      var ok;
      ok, ip, op := Step(level, strictAlign, input, output, maxout, ctrl, ip, op, toks);
      if !ok {
        return 0;
      }
      loop := ip < |input|;
      if loop {
        ctrl := input[ip];
        ip := ip + 1;
      }
    }
    EmptyExpand(output[..op]);
    return op;
  }

  lemma EmptyExpand(out: seq<Byte>)
    ensures Expand([], out) == Some(out)
  {
  }
}
