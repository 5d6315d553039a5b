/**
 The FastLZ compressor at both levels: a table of recent positions indexed by a hash, greedy
 matches, and literal runs whose counter byte is reserved first and patched when the run ends.
 What the hash returns plays no part in the proofs.
 */
module FastLzCompress {
  import opened Bytes
  import opened FastLzFormat
  import opened FastLzGreedy

  /** The table only holds positions before `ip`. */
  ghost predicate TableBelow(htab: array<nat>, ip: nat)
    reads htab
  {
    && htab.Length == HASH_SIZE
    && forall h :: 0 <= h < HASH_SIZE ==> htab[h] < ip
  }

  // ------------------------------------------------------------------- finding matches

  /** Look for a match at `anchor`: a run, else the position the table has for its hash, which
      `anchor` replaces. */
  method FindMatch(level: int, input: seq<Byte>, htab: array<nat>, anchor: nat)
      returns (found: bool, distance: nat, len: nat)
    requires IsLevel(level) && 2 <= anchor && anchor + 12 < |input|
    requires TableBelow(htab, anchor)
    modifies htab
    ensures TableBelow(htab, anchor + 1)
    ensures var h := Hash(input, anchor);
            if RunHere(level, input, anchor) then found && distance == 1 && htab[..] == old(htab[..])
            else && found == Candidate(level, input, anchor, old(htab[h]))
                 && distance == anchor - old(htab[h])
                 && htab[..] == old(htab[..])[h := anchor]
    ensures found ==> len == Needed(level, distance)
    ensures found ==> distance < DistanceLimit(level) && Repeats(input, anchor, anchor + len, distance)
  {
    var ip := anchor;
    found, len := true, 3;
    if level == 2 {
      if input[ip] == input[ip - 1] && ReadU16(input, ip - 1) == ReadU16(input, ip + 1) {
        distance := 1;
        return;
      }
    }
    var hval := Hash(input, ip);
    var ref := htab[hval];
    distance := anchor - ref;
    htab[hval] := anchor;
    if distance == 0 || distance >= DistanceLimit(level) ||
       input[ref] != input[ip] || input[ref + 1] != input[ip + 1] || input[ref + 2] != input[ip + 2] {
      found := false;
      return;
    }
    if level == 2 && distance >= MaxDistance(level) {
      if input[ip + 3] != input[ref + 3] || input[ip + 4] != input[ref + 4] {
        found := false;
        return;
      }
      len := len + 2;
    }
  }

  /** A run: the byte before `ip` is compared with the run's byte. */
  method ExtendRun(input: seq<Byte>, anchor: nat, len: nat) returns (ip: nat)
    requires (len == 3 || len == 5) && anchor + 12 < |input|
    requires Repeats(input, anchor, anchor + len, 1)
    ensures anchor + len < ip <= |input| - 2
    ensures Repeats(input, anchor, ip - 1, 1)
    ensures ip < |input| - 2 ==> input[ip - 1] != input[ip - 2]
  {
    ip := anchor + len;
    var bound := |input| - 2;
    var ref := ip - 1;
    var x := input[ip - 1];
    assert input[anchor - 1] == input[anchor] == input[anchor + 1] == input[anchor + 2];
    assert len == 5 ==> input[anchor + 2] == input[anchor + 3] == input[anchor + 4];
    var go := true;
    while ip < bound && go
      invariant anchor + len <= ip <= bound
      invariant go ==> ref + 1 == ip
      invariant !go ==> anchor + len < ip && input[ip - 1] != x
      invariant forall i :: anchor - 1 <= i < ip - 1 ==> input[i] == x
      decreases go, bound - ip
    {
      if input[ref] != x {
        go := false;
      } else {
        ip := ip + 1;
      }
      ref := ref + 1;
    }
  }

  /** Eight comparisons that need no bound check. */
  method CompareEight(input: seq<Byte>, anchor: nat, distance: nat, len: nat) returns (ip: nat, go: bool)
    requires (len == 3 || len == 5) && anchor + 12 < |input|
    requires Repeats(input, anchor, anchor + len, distance)
    ensures anchor + len < ip <= anchor + len + 8 && (go ==> ip == anchor + len + 8)
    ensures Repeats(input, anchor, if go then ip else ip - 1, distance)
    ensures !go ==> input[ip - 1] != input[ip - 1 - distance]
  {
    ip := anchor + len;
    var ref, k := ip - distance, 0;
    go := true;
    while k < 8 && go
      invariant 0 <= k <= 8 && ip == anchor + len + k && ref + distance == ip
      invariant !go ==> k > 0 && input[ip - 1] != input[ip - 1 - distance]
      invariant Repeats(input, anchor, if go then ip else ip - 1, distance)
    {
      go := input[ref] == input[ip];
      ref, ip, k := ref + 1, ip + 1, k + 1;
    }
  }

  /** Eight comparisons, then the rest. */
  method ExtendCopy(input: seq<Byte>, anchor: nat, distance: nat, len: nat) returns (ip: nat)
    requires (len == 3 || len == 5) && anchor + 12 < |input|
    requires Repeats(input, anchor, anchor + len, distance) && distance != 1
    ensures anchor + len < ip <= |input|
    ensures IsLongest(input, anchor, distance, Limit(input, anchor, distance, len), ip - 1 - anchor)
  {
    var bound := |input| - 2;
    var go;
    ip, go := CompareEight(input, anchor, distance, len);
    ghost var eight := ip;
    var ref := ip - distance;
    while ip < bound && go
      invariant eight <= ip <= |input| && ref + distance == ip && (ip <= bound || ip == eight)
      invariant !go ==> input[ip - 1] != input[ip - 1 - distance]
      invariant Repeats(input, anchor, if go then ip else ip - 1, distance)
    {
      go := input[ref] == input[ip];
      ref, ip := ref + 1, ip + 1;
    }
  }

  /** Extend a match of `len` bytes as far as it goes: the returned position is one past the longest
      repetition. */
  method ExtendMatch(input: seq<Byte>, anchor: nat, distance: nat, len: nat) returns (ip: nat)
    requires (len == 3 || len == 5) && anchor + 12 < |input|
    requires Repeats(input, anchor, anchor + len, distance)
    ensures anchor + len < ip <= |input| && Repeats(input, anchor, ip - 1, distance)
    ensures ip - 1 - anchor == Longest(input, anchor, distance, len, Limit(input, anchor, distance, len))
  {
    hide Longest;
    if distance - 1 == 0 {
      ip := ExtendRun(input, anchor, len);
    } else {
      ip := ExtendCopy(input, anchor, distance, len);
    }
    LongestExactly(input, anchor, distance, len, Limit(input, anchor, distance, len), ip - 1 - anchor);
  }

  /** Enter the two positions at a match boundary into the table. */
  method Refresh(input: seq<Byte>, htab: array<nat>, ip0: nat) returns (ip: nat)
    requires TableBelow(htab, ip0)
    modifies htab
    ensures ip == ip0 + 2 && TableBelow(htab, ip)
    ensures htab[..] == old(htab[..])[Hash(input, ip0) := ip0][Hash(input, ip0 + 1) := ip0 + 1]
  {
    ip := ip0;
    var hval := Hash(input, ip);
    htab[hval] := ip;
    ip := ip + 1;
    hval := Hash(input, ip);
    htab[hval] := ip;
    ip := ip + 1;
  }

  // ------------------------------------------------------------------- writing matches

  lemma {:induction false} CopyBackSplit(s: seq<Byte>, dist: nat, a: nat, b: nat)
    requires 1 <= dist <= |s|
    ensures CopyBack(CopyBack(s, dist, a), dist, b) == CopyBack(s, dist, a + b)
  {
    CopyBackUnique(s, dist, a + b, CopyBack(CopyBack(s, dist, a), dist, b));
  }

  /** Splitting a match does not change what it means. */
  lemma {:induction false} MatchTokensExpand(level: int, m: nat, dist: nat, s: seq<Byte>)
    requires m >= 3 && 1 <= dist <= |s|
    ensures Expand(MatchTokens(level, m, dist), s) == Some(CopyBack(s, dist, m))
    decreases m
  {
    var toks := MatchTokens(level, m, dist);
    if level == 1 && m > MAX_LEN {
      var s' := CopyBack(s, dist, MAX_LEN - 2);
      assert Apply(toks[0], s) == Some(s');
      assert toks[1..] == MatchTokens(level, m - (MAX_LEN - 2), dist);
      MatchTokensExpand(level, m - (MAX_LEN - 2), dist, s');
      CopyBackSplit(s, dist, MAX_LEN - 2, m - (MAX_LEN - 2));
    } else {
      assert toks[1..] == [];
    }
  }

  lemma {:induction false} ExcessSize(n: nat)
    ensures |Excess(n)| == n / 255 + 1
    decreases n
  {
    if n >= 255 { ExcessSize(n - 255); }
  }

  /** A match is encoded in fewer bytes than it copies, so it also pays for the counter byte of
      the literal run before it. */
  lemma {:induction false} MatchTokensSize(level: int, m: nat, dist: nat)
    requires IsLevel(level) && 3 <= m < WORD && 1 <= dist < DistanceLimit(level)
    requires level == 2 && dist >= MaxDistance(2) ==> m >= 5
    ensures ValidTokens(level, MatchTokens(level, m, dist))
    ensures |Encode(level, MatchTokens(level, m, dist))| <= m - 1
    decreases m
  {
    var toks := MatchTokens(level, m, dist);
    if level == 1 && m > MAX_LEN {
      assert toks[1..] == MatchTokens(level, m - (MAX_LEN - 2), dist);
      MatchTokensSize(level, m - (MAX_LEN - 2), dist);
    } else {
      assert toks[1..] == [];
      assert Encode(level, toks) == EncodeMatch(level, m - 2, dist - 1);
      if m >= 9 { ExcessSize(m - 9); }
    }
  }

  method Put(output: array<Byte>, op0: nat, b: Byte) returns (op: nat)
    requires op0 < output.Length
    modifies output
    ensures op == op0 + 1
    ensures output[..op] == old(output[..op0]) + [b]
    ensures forall i :: op <= i < output.Length ==> output[i] == old(output[i])
  {
    output[op0] := b;
    op := op0 + 1;
  }

  method EmitExcess(output: array<Byte>, op0: nat, n: nat) returns (op: nat)
    requires op0 + |Excess(n)| <= output.Length
    modifies output
    ensures op == op0 + |Excess(n)|
    ensures output[..op] == old(output[..op0]) + Excess(n)
    ensures forall i :: op <= i < output.Length ==> output[i] == old(output[i])
  {
    op := op0;
    var len := n;
    while len >= 255
      invariant 0 <= len && op0 <= op && op + |Excess(len)| == op0 + |Excess(n)|
      invariant output[..op] + Excess(len) == old(output[..op0]) + Excess(n)
      invariant forall i :: op0 + |Excess(n)| <= i < output.Length ==> output[i] == old(output[i])
    {
      op := Put(output, op, 255);
      assert [255] + Excess(len - 255) == Excess(len);
      len := len - 255;
    }
    op := Put(output, op, len);
  }

  /** One level 1 match token of at most 264 bytes. */
  method EmitShort(output: array<Byte>, op0: nat, len: nat, distance: nat) returns (op: nat)
    requires 1 <= len <= MAX_LEN - 2 && distance + 1 < DistanceLimit(1)
    requires op0 + |EncodeMatch(1, len, distance)| <= output.Length
    modifies output
    ensures op == op0 + |EncodeMatch(1, len, distance)|
    ensures output[..op] == old(output[..op0]) + EncodeMatch(1, len, distance)
    ensures forall i :: op <= i < output.Length ==> output[i] == old(output[i])
  {
    if len < 7 {
      op := Put(output, op0, Lead(len, distance / 256));
      op := Put(output, op, distance % 256);
    } else {
      op := Put(output, op0, Lead(7, distance / 256));
      op := Put(output, op, len - 7);
      op := Put(output, op, distance % 256);
    }
  }

  /** The level 1 encoding of a match: split while too long. */
  method EmitMatch1(output: array<Byte>, op0: nat, len0: nat, distance: nat) returns (op: nat)
    requires 1 <= len0 < WORD - 2 && distance + 1 < DistanceLimit(1)
    requires ValidTokens(1, MatchTokens(1, len0 + 2, distance + 1))
    requires op0 + |Encode(1, MatchTokens(1, len0 + 2, distance + 1))| <= output.Length
    modifies output
    ensures op == op0 + |Encode(1, MatchTokens(1, len0 + 2, distance + 1))|
    ensures output[..op] == old(output[..op0]) + Encode(1, MatchTokens(1, len0 + 2, distance + 1))
    ensures forall i :: op <= i < output.Length ==> output[i] == old(output[i])
  {
    hide EncodeMatch;
    op := op0;
    var len := len0;
    ghost var all := Encode(1, MatchTokens(1, len0 + 2, distance + 1));
    while len > MAX_LEN - 2
      invariant 1 <= len && ValidTokens(1, MatchTokens(1, len + 2, distance + 1))
      invariant op0 <= op && op + |Encode(1, MatchTokens(1, len + 2, distance + 1))| == op0 + |all|
      invariant output[..op] + Encode(1, MatchTokens(1, len + 2, distance + 1)) == old(output[..op0]) + all
      invariant forall i :: op0 + |all| <= i < output.Length ==> output[i] == old(output[i])
    {
      SplitEncode(len, distance);
      op := EmitShort(output, op, MAX_LEN - 4, distance);
      len := len - (MAX_LEN - 2);
    }
    SingleEncode(1, len + 2, distance + 1);
    op := EmitShort(output, op, len, distance);
  }

  lemma SplitEncode(len: nat, distance: nat)
    requires len > MAX_LEN - 2 && distance + 1 < DistanceLimit(1)
    requires ValidTokens(1, MatchTokens(1, len + 2, distance + 1))
    ensures ValidTokens(1, MatchTokens(1, len + 2 - (MAX_LEN - 2), distance + 1))
    ensures Encode(1, MatchTokens(1, len + 2, distance + 1))
         == EncodeMatch(1, MAX_LEN - 4, distance)
            + Encode(1, MatchTokens(1, len + 2 - (MAX_LEN - 2), distance + 1))
  {
    var toks := MatchTokens(1, len + 2, distance + 1);
    assert toks[1..] == MatchTokens(1, len + 2 - (MAX_LEN - 2), distance + 1);
    assert forall i :: 0 <= i < |toks| - 1 ==> toks[1..][i] == toks[i + 1];
  }

  lemma SingleEncode(level: int, m: nat, dist: nat)
    requires 3 <= m < WORD && 1 <= dist < DistanceLimit(level) && (level == 1 ==> m <= MAX_LEN)
    ensures ValidTokens(level, MatchTokens(level, m, dist))
    ensures Encode(level, MatchTokens(level, m, dist)) == EncodeMatch(level, m - 2, dist - 1)
  {
    assert MatchTokens(level, m, dist)[1..] == [];
  }

  method EmitLength(output: array<Byte>, op0: nat, len: nat, hi: nat) returns (op: nat)
    requires hi <= 31 && op0 + |LengthBytes(len, hi)| <= output.Length
    modifies output
    ensures op == op0 + |LengthBytes(len, hi)|
    ensures output[..op] == old(output[..op0]) + LengthBytes(len, hi)
    ensures forall i :: op <= i < output.Length ==> output[i] == old(output[i])
  {
    hide Excess;
    if len < 7 {
      op := Put(output, op0, Lead(len, hi));
    } else {
      op := Put(output, op0, Lead(7, hi));
      op := EmitExcess(output, op, len - 7);
    }
  }

  /** The level 2 encoding of a match, near or far. */
  method EmitMatch2(output: array<Byte>, op0: nat, len: nat, biased: nat) returns (op: nat)
    requires 1 <= len && biased + 1 < DistanceLimit(2)
    requires op0 + |EncodeMatch(2, len, biased)| <= output.Length
    modifies output
    ensures op == op0 + |EncodeMatch(2, len, biased)|
    ensures output[..op] == old(output[..op0]) + EncodeMatch(2, len, biased)
    ensures forall i :: op <= i < output.Length ==> output[i] == old(output[i])
  {
    hide LengthBytes;
    var distance := biased;
    if distance < MaxDistance(2) {
      op := EmitLength(output, op0, len, distance / 256);
      op := Put(output, op, distance % 256);
    } else {
      distance := distance - MaxDistance(2);
      op := EmitLength(output, op0, len, 31);
      op := Put(output, op, 255);
      op := Put(output, op, distance / 256);
      op := Put(output, op, distance % 256);
    }
  }

  method EmitMatch(level: int, output: array<Byte>, op0: nat, len: nat, distance: nat) returns (op: nat)
    requires IsLevel(level) && 1 <= len < WORD - 2 && distance + 1 < DistanceLimit(level)
    requires ValidTokens(level, MatchTokens(level, len + 2, distance + 1))
    requires op0 + |Encode(level, MatchTokens(level, len + 2, distance + 1))| <= output.Length
    modifies output
    ensures op == op0 + |Encode(level, MatchTokens(level, len + 2, distance + 1))|
    ensures output[..op] == old(output[..op0]) + Encode(level, MatchTokens(level, len + 2, distance + 1))
    ensures forall i :: op <= i < output.Length ==> output[i] == old(output[i])
  {
    hide EncodeMatch;
    if level == 2 {
      SingleEncode(2, len + 2, distance + 1);
      op := EmitMatch2(output, op0, len, distance);
    } else {
      op := EmitMatch1(output, op0, len, distance);
    }
  }

  // ------------------------------------------------------------------- the loop state

  /** Room that always suffices: one counter byte for every 32 literals, and one more. */
  function PeakSize(n: nat): nat {
    n + 1 + n / 32
  }

  /** The size promised for the finished block. */
  function SizeBound(n: nat): nat {
    if n == 0 then 0 else n + 1 + (n - 1) / 32
  }

  /** The output `out` holds the tokens of input[..ip - copy], then a literal run still open: a
      counter byte preset to 31 and the `copy` bytes input[ip - copy..ip]. */
  ghost predicate Open(level: int, input: seq<Byte>, out: seq<Byte>, ip: nat, copy: nat, toks: seq<Token>) {
    && copy <= MAX_COPY && copy <= ip <= |input| && copy < |out|
    && (copy == ip ==> toks == []) && ip > 0
    && Done(level, input, out[..|out| - copy - 1], ip - copy, toks)
    && out[|out| - copy - 1] == MAX_COPY - 1
    && out[|out| - copy..] == input[ip - copy..ip]
    && 32 * (|out| - copy - 1) <= 33 * (ip - copy)
  }

  /** The output `out` holds exactly the tokens of input[..ip]. */
  ghost predicate Done(level: int, input: seq<Byte>, out: seq<Byte>, ip: nat, toks: seq<Token>) {
    && ip <= |input|
    && ValidTokens(level, toks)
    && (if toks == [] then ip == 0 else toks[0].Literal?)
    && Expand(toks, []) == Some(input[..ip])
    && out == Encode(level, toks)
  }

  /** Adding a literal token. */
  lemma DoneLiteral(level: int, input: seq<Byte>, out: seq<Byte>, from: nat, ip: nat, toks: seq<Token>)
    requires from < ip <= |input| && ip - from <= MAX_COPY
    requires Done(level, input, out, from, toks)
    ensures Done(level, input, out + ([ip - from - 1] + input[from..ip]), ip, toks + [Literal(input[from..ip])])
  {
    hide EncodeMatch, CopyBack, Expand, Encode;
    var t := Literal(input[from..ip]);
    ExpandAppend(toks, t, []);
    EncodeAppend(level, toks, t);
    assert input[..from] + input[from..ip] == input[..ip];
  }

  lemma CloseRunDone(level: int, input: seq<Byte>, out: seq<Byte>, ip: nat, copy: nat, toks: seq<Token>)
    requires Open(level, input, out, ip, copy, toks)
    ensures copy == 0 ==> Done(level, input, out[..|out| - 1], ip, toks)
    ensures copy > 0 ==> Done(level, input, out[|out| - copy - 1 := copy - 1], ip, Closed(input, ip, copy, toks))
  {
    hide Done;
    if copy > 0 {
      var p := |out| - copy - 1;
      DoneLiteral(level, input, out[..p], ip - copy, ip, toks);
      assert out[p := copy - 1] == out[..p] + ([copy - 1] + out[p + 1..]);
    }
  }

  /** Writing one literal into the open run. */
  lemma LiteralOpen(level: int, input: seq<Byte>, out: seq<Byte>, ip: nat, copy: nat, toks: seq<Token>)
    requires Open(level, input, out, ip, copy, toks) && ip < |input| && copy < MAX_COPY
    ensures Open(level, input, out + [input[ip]], ip + 1, copy + 1, toks)
  {
    hide Done;
    var o := out + [input[ip]];
    var p := |out| - copy - 1;
    assert o[..p] == out[..p];
    assert o[p + 1..] == out[p + 1..] + [input[ip]];
    assert input[ip - copy..ip] + [input[ip]] == input[ip - copy..ip + 1];
  }

  /** Reserving the counter byte of the next run. */
  lemma OpenNext(level: int, input: seq<Byte>, out: seq<Byte>, ip: nat, toks: seq<Token>)
    requires Done(level, input, out, ip, toks) && ip > 0
    requires 32 * |out| <= 33 * ip
    ensures Open(level, input, out + [MAX_COPY - 1], ip, 0, toks)
  {
    var o := out + [MAX_COPY - 1];
    assert o[..|o| - 1] == out;
  }

  /** A run that reached 32 literals already has the right counter. */
  lemma FullRunOpen(level: int, input: seq<Byte>, out: seq<Byte>, ip: nat, toks: seq<Token>)
    requires Open(level, input, out, ip, MAX_COPY, toks)
    ensures Open(level, input, out + [MAX_COPY - 1], ip, 0, Closed(input, ip, MAX_COPY, toks))
  {
    CloseRunDone(level, input, out, ip, MAX_COPY, toks);
    assert out[|out| - MAX_COPY - 1 := MAX_COPY - 1] == out;
    OpenNext(level, input, out, ip, Closed(input, ip, MAX_COPY, toks));
  }

  /** Adding the tokens of a match, then opening the next run. */
  lemma {:induction false} MatchOpen(level: int, input: seq<Byte>, out: seq<Byte>, ip: nat, toks: seq<Token>,
                  m: nat, dist: nat)
    requires IsLevel(level) && |input| < WORD && Done(level, input, out, ip, toks)
    requires ip > 0 && 32 * (|out| - 1) <= 33 * ip
    requires 3 <= m && ip + m <= |input| && dist < DistanceLimit(level)
    requires level == 2 && dist >= MaxDistance(2) ==> m >= 5
    requires Repeats(input, ip, ip + m, dist)
    requires ValidTokens(level, MatchTokens(level, m, dist))
    ensures Open(level, input, out + Encode(level, MatchTokens(level, m, dist)) + [MAX_COPY - 1], ip + m, 0,
                 toks + MatchTokens(level, m, dist))
  {
    hide EncodeToken, Apply;
    var ms := MatchTokens(level, m, dist);
    MatchTokensSize(level, m, dist);
    MatchTokensExpand(level, m, dist, input[..ip]);
    CopyBackUnique(input[..ip], dist, m, input[..ip + m]);
    ExpandConcat(toks, ms, []);
    EncodeConcat(level, toks, ms);
    OpenNext(level, input, out + Encode(level, ms), ip + m, toks + ms);
  }

  lemma {:induction false} ExpandConcat(a: seq<Token>, b: seq<Token>, out: seq<Byte>)
    ensures Expand(a + b, out) == match Expand(a, out) case None => None case Some(mid) => Expand(b, mid)
    decreases |b|
  {
    if b == [] {
      assert a + b == a;
    } else {
      assert a + b == (a + [b[0]]) + b[1..];
      ExpandConcat(a + [b[0]], b[1..], out);
      ExpandAppend(a, b[0], out);
    }
  }

  lemma {:induction false} EncodeConcat(level: int, a: seq<Token>, b: seq<Token>)
    requires ValidTokens(level, a) && ValidTokens(level, b)
    ensures ValidTokens(level, a + b)
    ensures Encode(level, a + b) == Encode(level, a) + Encode(level, b)
    decreases |b|
  {
    hide EncodeToken;
    if b == [] {
      assert a + b == a;
    } else {
      assert a + b == (a + [b[0]]) + b[1..];
      EncodeAppend(level, a, b[0]);
      EncodeConcat(level, a + [b[0]], b[1..]);
    }
  }

  // ------------------------------------------------------------------- the compressor

  method PutLiteral(level: int, input: seq<Byte>, output: array<Byte>, ip: nat, op0: nat, copy0: nat,
                    ghost toks0: seq<Token>)
      returns (op: nat, copy: nat, ghost toks: seq<Token>)
    requires ip < |input| && PeakSize(|input|) <= output.Length
    requires op0 <= output.Length && copy0 < MAX_COPY && Open(level, input, output[..op0], ip, copy0, toks0)
    modifies output
    ensures op <= output.Length && copy < MAX_COPY && Open(level, input, output[..op], ip + 1, copy, toks)
    ensures if copy0 + 1 == MAX_COPY then copy == 0 && toks == Closed(input, ip + 1, MAX_COPY, toks0)
            else copy == copy0 + 1 && toks == toks0
    ensures forall i :: PeakSize(|input|) <= i < output.Length ==> output[i] == old(output[i])
  {
    hide Open, Done, Closed;
    LiteralOpen(level, input, output[..op0], ip, copy0, toks0);
    OpenFits(level, input, output[..op0], ip, copy0, toks0);
    op := Put(output, op0, input[ip]);
    copy, toks := copy0 + 1, toks0;
    if copy == MAX_COPY {
      FullRunOpen(level, input, output[..op], ip + 1, toks);
      op := Put(output, op, MAX_COPY - 1);
      copy, toks := 0, Closed(input, ip + 1, MAX_COPY, toks);
    }
  }

  /** How far the output can be ahead of the input. */
  lemma OpenFits(level: int, input: seq<Byte>, out: seq<Byte>, ip: nat, copy: nat, toks: seq<Token>)
    requires Open(level, input, out, ip, copy, toks)
    ensures 32 * |out| <= 33 * ip + 32 - copy
    ensures copy < |out| && copy <= ip <= |input| && ip > 0
  {
  }

  /** Patch the counter of the open run, or take back the reserved byte when it is empty. */
  method CloseRun(level: int, input: seq<Byte>, output: array<Byte>, ip: nat, op0: nat, copy: nat,
                  ghost toks: seq<Token>)
      returns (op: nat)
    requires op0 <= output.Length && Open(level, input, output[..op0], ip, copy, toks)
    modifies output
    ensures op <= op0 && Done(level, input, output[..op], ip, Closed(input, ip, copy, toks))
    ensures 32 * (op - 1) <= 33 * ip - copy
    ensures copy == 0 ==> 32 * op <= 33 * ip
    ensures forall i :: op0 <= i < output.Length ==> output[i] == old(output[i])
  {
    hide Done;
    ghost var out := output[..op0];
    CloseRunDone(level, input, out, ip, copy, toks);
    if copy > 0 {
      output[op0 - copy - 1] := copy - 1;
      op := op0;
      assert output[..op] == out[op0 - copy - 1 := copy - 1];
    } else {
      op := op0 - 1;
      assert output[..op] == out[..op0 - 1];
    }
  }

  /** Write a match of `m` bytes found at `anchor`, and reserve the next counter byte. */
  method PutMatch(level: int, input: seq<Byte>, output: array<Byte>, anchor: nat, op0: nat, copy: nat,
                  m: nat, distance: nat, ghost toks0: seq<Token>)
      returns (op: nat, ghost toks: seq<Token>)
    requires IsLevel(level) && |input| < WORD && PeakSize(|input|) <= output.Length
    requires op0 <= output.Length && Open(level, input, output[..op0], anchor, copy, toks0)
    requires 3 <= m && anchor + m < |input| && distance < DistanceLimit(level)
    requires level == 2 && distance >= MaxDistance(2) ==> m >= 5
    requires Repeats(input, anchor, anchor + m, distance)
    modifies output
    ensures op <= output.Length && Open(level, input, output[..op], anchor + m, 0, toks)
    ensures toks == Closed(input, anchor, copy, toks0) + MatchTokens(level, m, distance)
    ensures forall i :: PeakSize(|input|) <= i < output.Length ==> output[i] == old(output[i])
  {
    hide Done, EncodeMatch, Open, Closed, MatchTokens;
    OpenFits(level, input, output[..op0], anchor, copy, toks0);
    op := CloseRun(level, input, output, anchor, op0, copy, toks0);
    toks := Closed(input, anchor, copy, toks0);
    MatchTokensSize(level, m, distance);
    MatchOpen(level, input, output[..op], anchor, toks, m, distance);
    toks := toks + MatchTokens(level, m, distance);
    op := EmitMatch(level, output, op, m - 2, distance - 1);
    op := Put(output, op, MAX_COPY - 1);
  }

  /** One turn of the main loop: a match, or one literal byte. */
  method Step(level: int, input: seq<Byte>, output: array<Byte>, htab: array<nat>, ip0: nat, op0: nat,
              copy0: nat, ghost toks0: seq<Token>)
      returns (ip: nat, op: nat, copy: nat, ghost toks: seq<Token>)
    requires IsLevel(level) && |input| < WORD && PeakSize(|input|) <= output.Length
    requires 2 <= ip0 && ip0 + 12 < |input| && TableBelow(htab, ip0)
    requires op0 <= output.Length && copy0 < MAX_COPY && Open(level, input, output[..op0], ip0, copy0, toks0)
    modifies output, htab
    ensures ip0 < ip < |input| && TableBelow(htab, ip)
    ensures copy0 <= ip0 && State(ip, htab[..], copy, toks) == Turn(level, input, State(ip0, old(htab[..]), copy0, toks0))
    ensures op <= output.Length && copy < MAX_COPY && Open(level, input, output[..op], ip, copy, toks)
    ensures forall i :: PeakSize(|input|) <= i < output.Length ==> output[i] == old(output[i])
  {
    hide Open, Hash, Longest, Candidate, RunHere, Closed, MatchTokens;
    OpenFits(level, input, output[..op0], ip0, copy0, toks0);
    var found, distance, len := FindMatch(level, input, htab, ip0);
    if found {
      ip := ExtendMatch(input, ip0, distance, len);
      ip := ip - 3;
      len := ip - ip0;
      op, toks := PutMatch(level, input, output, ip0, op0, copy0, len + 2, distance, toks0);
      copy := 0;
      ip := Refresh(input, htab, ip);
    } else {
      op, copy, toks := PutLiteral(level, input, output, ip0, op0, copy0, toks0);
      ip := ip0 + 1;
    }
  }

  /** `block` is a well-formed block of the given level that means `x`. */
  ghost predicate IsBlock(level: int, x: seq<Byte>, block: seq<Byte>) {
    exists toks :: IsBlockOf(level, x, block, toks)
  }

  ghost predicate IsBlockOf(level: int, x: seq<Byte>, block: seq<Byte>, toks: seq<Token>) {
    && IsLevel(level)
    && toks != []
    && Done(level, x, Encode'(level, toks), |x|, toks)
    && Encode'(level, toks) != []
    && block == Marked(level, Encode'(level, toks))
  }

  ghost function Encode'(level: int, toks: seq<Token>): seq<Byte> {
    if ValidTokens(level, toks) then Encode(level, toks) else []
  }

  /** The block of an input: its greedy tokens, marked with the level; under four bytes it is one
      literal, unmarked at either level. */
  ghost function BlockFor(level: int, x: seq<Byte>): seq<Byte> {
    var l, toks := if |x| < 4 then 1 else level, if |x| < 4 then [Literal(x)] else Greedy(level, x);
    if Encode'(l, toks) == [] then [] else Marked(l, Encode'(l, toks))
  }

  /** A block names its level in the top bits of its first byte. */
  lemma BlockNamesLevel(level: int, x: seq<Byte>, block: seq<Byte>, toks: seq<Token>)
    requires IsBlockOf(level, x, block, toks)
    ensures block != [] && block[0] / 32 + 1 == level
  {
    hide Greedy, Expand, EncodeMatch;
    FirstByte(level, toks);
  }

  /** n equal bytes at level 2 take 10 bytes, and one more for every 255 from the 14th on. */
  lemma EqualBytes(x: seq<Byte>)
    requires 15 <= |x| < WORD && forall i :: 0 <= i < |x| ==> x[i] == x[0]
    ensures |BlockFor(2, x)| == 10 + (|x| - 14) / 255
  {
    hide Greedy, EncodeToken, EncodeMatch;
    var n := |x|;
    EqualBytesTokens(x);
    var a, b, c := Literal(x[..2]), Match(n - 5, 1), Literal(x[n - 3..]);
    RunSizes(n);
    assert ValidToken(2, a) && ValidToken(2, b) && ValidToken(2, c);
    assert [a, b, c][1..] == [b, c] && [b, c][1..] == [c] && [c][1..] == [];
    EncodeOf(2, a, [b, c]);
    EncodeOf(2, b, [c]);
    EncodeOf(2, c, []);
    LiteralSize(2, a);
    LiteralSize(2, c);
  }

  /** At level 1 they take at most 10 bytes, and three more for every 262 from the eighth on. */
  lemma EqualBytes1(x: seq<Byte>)
    requires 15 <= |x| < WORD && forall i :: 0 <= i < |x| ==> x[i] == x[0]
    ensures |BlockFor(1, x)| <= 10 + (|x| - 8) / 262 * 3
  {
    hide Greedy, EncodeToken, EncodeMatch, MatchTokens;
    var n := |x|;
    EqualBytesTokens1(x);
    var a, ms, c := Literal(x[..2]), MatchTokens(1, n - 5, 2), Literal(x[n - 3..]);
    MatchTokensSize(1, n - 5, 2);
    PiecesSize(n - 5, 2);
    EncodeOf(1, c, []);
    assert [c] + [] == [c];
    EncodeConcat(1, ms, [c]);
    EncodeOf(1, a, ms + [c]);
    assert [a] + ms + [c] == [a] + (ms + [c]);
    LiteralSize(1, a);
    LiteralSize(1, c);
  }

  /** The pieces of a level-1 match take at most three bytes each. */
  lemma {:induction false} PiecesSize(m: nat, dist: nat)
    requires 3 <= m < WORD && 1 <= dist < DistanceLimit(1)
    ensures ValidTokens(1, MatchTokens(1, m, dist))
    ensures |Encode(1, MatchTokens(1, m, dist))| <= 3 + (m - 3) / 262 * 3
    decreases m
  {
    var toks := MatchTokens(1, m, dist);
    if m > MAX_LEN {
      assert toks[1..] == MatchTokens(1, m - (MAX_LEN - 2), dist);
      PiecesSize(m - (MAX_LEN - 2), dist);
    } else {
      assert toks[1..] == [];
    }
  }

  lemma EncodeOf(level: int, t: Token, rest: seq<Token>)
    requires ValidToken(level, t) && ValidTokens(level, rest)
    ensures ValidTokens(level, [t] + rest) && Encode(level, [t] + rest) == EncodeToken(level, t) + Encode(level, rest)
  {
    hide EncodeToken;
    assert ([t] + rest)[1..] == rest;
  }

  lemma LiteralSize(level: int, t: Token)
    requires t.Literal? && ValidToken(level, t)
    ensures |EncodeToken(level, t)| == |t.bytes| + 1
  {
  }

  lemma RunSizes(n: nat)
    requires 15 <= n < WORD
    ensures ValidToken(2, Match(n - 5, 1)) && |EncodeToken(2, Match(n - 5, 1))| == 3 + (n - 14) / 255
  {
    ExcessSize(n - 14);
  }

  /** Inputs of fewer than four bytes: one literal run, with no level marker at either level. */
  method CompressShort(input: seq<Byte>, output: array<Byte>) returns (size: nat)
    requires 1 <= |input| < 4 && PeakSize(|input|) <= output.Length
    modifies output
    ensures size == |input| + 1 && IsBlockOf(1, input, output[..size], [Literal(input)])
    ensures forall i :: size <= i < output.Length ==> output[i] == old(output[i])
  {
    var op := Put(output, 0, |input| - 1);
    var ip := 0;
    while ip < |input|
      invariant ip <= |input| && op == ip + 1
      invariant output[..op] == [|input| - 1] + input[..ip]
      invariant forall i :: op <= i < output.Length ==> output[i] == old(output[i])
    {
      op := Put(output, op, input[ip]);
      ip := ip + 1;
    }
    size := |input| + 1;
    assert input[0..|input|] == input && input[..0] == [];
    DoneLiteral(1, input, [], 0, |input|, []);
    assert [] + [Literal(input)] == [Literal(input)];
  }

  /** FASTLZ_COMPRESSOR: the size of the block written, 0 for no input. */
  method CompressLevel(level: int, input: seq<Byte>, output: array<Byte>) returns (size: nat)
    requires IsLevel(level) && |input| < 0x8000_0000 && PeakSize(|input|) <= output.Length
    modifies output
    ensures size <= SizeBound(|input|) && size <= output.Length
    ensures |input| == 0 <==> size == 0
    ensures 1 <= |input| < 4 ==> IsBlockOf(1, input, output[..size], [Literal(input)])
    ensures |input| >= 4 ==> IsBlockOf(level, input, output[..size], Greedy(level, input))
    ensures forall i :: PeakSize(|input|) <= i < output.Length ==> output[i] == old(output[i])
  {
    hide Open, Finished, Closed, Turn, AfterByte, TableBelow;
    if |input| < 4 {
      if |input| == 0 {
        return 0;
      }
      size := CompressShort(input, output);
      return;
    }
    var htab := new nat[HASH_SIZE](_ => 0);
    var ip: nat, op: nat, copy: nat;
    ghost var toks;
    ip, op, copy, toks := Start(level, input, output);
    EmptyTable(htab);
    assert State(ip, htab[..], copy, toks) == Begin();
    while ip + 12 < |input|
      invariant 2 <= ip < |input| && TableBelow(htab, ip)
      invariant op <= output.Length && copy < MAX_COPY && Open(level, input, output[..op], ip, copy, toks)
      invariant OnCourse(level, input, State(ip, htab[..], copy, toks))
      invariant forall i :: PeakSize(|input|) <= i < output.Length ==> output[i] == old(output[i])
    {
      TurnOn(level, input, State(ip, htab[..], copy, toks));
      ip, op, copy, toks := Step(level, input, output, htab, ip, op, copy, toks);
    }
    while ip < |input|
      invariant 2 <= ip <= |input|
      invariant op <= output.Length && copy < MAX_COPY && Open(level, input, output[..op], ip, copy, toks)
      invariant OnCourse(level, input, State(ip, htab[..], copy, toks)) && ip + 12 >= |input|
      invariant forall i :: PeakSize(|input|) <= i < output.Length ==> output[i] == old(output[i])
    {
      ByteOn(level, input, State(ip, htab[..], copy, toks));
      op, copy, toks := PutLiteral(level, input, output, ip, op, copy, toks);
      ip := ip + 1;
    }
    CourseEnds(level, input, State(ip, htab[..], copy, toks));
    size, toks := Finish(level, input, output, op, copy, toks);
  }

  /** The compressor is on its way from the beginning to the tokens of the input. */
  ghost predicate OnCourse(level: int, x: seq<Byte>, s: State) {
    |x| >= 4 && Fine(x, s) && Finished(level, x, s) == Finished(level, x, Begin())
  }

  lemma TurnOn(level: int, x: seq<Byte>, s: State)
    requires OnCourse(level, x, s) && s.ip + 12 < |x|
    ensures OnCourse(level, x, Turn(level, x, s))
  {
    hide Turn, Begin;
  }

  lemma ByteOn(level: int, x: seq<Byte>, s: State)
    requires OnCourse(level, x, s) && s.ip + 12 >= |x| > s.ip
    ensures AfterByte(x, s) == (if s.copy + 1 == MAX_COPY then State(s.ip + 1, s.table, 0, Closed(x, s.ip + 1, MAX_COPY, s.toks))
                                else State(s.ip + 1, s.table, s.copy + 1, s.toks))
    ensures OnCourse(level, x, AfterByte(x, s))
  {
    hide Begin;
  }

  lemma CourseEnds(level: int, x: seq<Byte>, s: State)
    requires OnCourse(level, x, s) && s.ip == |x|
    ensures Closed(x, |x|, s.copy, s.toks) == Greedy(level, x)
  {
  }

  lemma EmptyTable(htab: array<nat>)
    requires htab.Length == HASH_SIZE && forall i :: 0 <= i < HASH_SIZE ==> htab[i] == 0
    ensures TableBelow(htab, 2) && Begin() == State(2, htab[..], 2, [])
  {
  }

  /** The first literal run starts with two bytes. */
  method Start(level: int, input: seq<Byte>, output: array<Byte>)
      returns (ip: nat, op: nat, copy: nat, ghost toks: seq<Token>)
    requires IsLevel(level) && |input| >= 4 && PeakSize(|input|) <= output.Length
    modifies output
    ensures ip == copy == 2 && toks == [] && op <= output.Length && Open(level, input, output[..op], ip, copy, toks)
    ensures forall i :: PeakSize(|input|) <= i < output.Length ==> output[i] == old(output[i])
  {
    copy := 2;
    op := Put(output, 0, MAX_COPY - 1);
    op := Put(output, op, input[0]);
    op := Put(output, op, input[1]);
    ip := 2;
    toks := [];
  }

  /** Close the last run and mark the level. */
  method Finish(level: int, input: seq<Byte>, output: array<Byte>, op0: nat, copy: nat, ghost toks0: seq<Token>)
      returns (op: nat, ghost toks: seq<Token>)
    requires IsLevel(level) && |input| > 0
    requires op0 <= output.Length && copy < MAX_COPY && Open(level, input, output[..op0], |input|, copy, toks0)
    modifies output
    ensures 0 < op <= op0 && op <= SizeBound(|input|)
    ensures toks == Closed(input, |input|, copy, toks0) && IsBlockOf(level, input, output[..op], toks)
    ensures forall i :: PeakSize(|input|) <= i < output.Length ==> output[i] == old(output[i])
  {
    hide Open;
    OpenFits(level, input, output[..op0], |input|, copy, toks0);
    op := CloseRun(level, input, output, |input|, op0, copy, toks0);
    toks := Closed(input, |input|, copy, toks0);
    ghost var plain := output[..op];
    assert toks != [] && plain == Encode(level, toks);
    FirstByte(level, toks);
    if level == 2 {
      output[0] := WithMarker(output[0]);
      assert output[..op] == [WithMarker(plain[0])] + plain[1..];
    }
  }

  lemma FirstByte(level: int, toks: seq<Token>)
    requires ValidTokens(level, toks) && toks != [] && toks[0].Literal?
    ensures Encode(level, toks) != [] && Encode(level, toks)[0] < 32
  {
  }
}
