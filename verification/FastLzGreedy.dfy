/**
 What the FastLZ compressor does, as a function of the input: at every position the match it takes,
 if any, and how far; the table of positions it keeps; and the tokens that result.
 */
module FastLzGreedy {
  import opened Bytes
  import opened FastLzFormat

  const HASH_SIZE := 8192

  /** A 16-bit little-endian read; bytes past the end of the input are 0. */
  function ReadU16(x: seq<Byte>, p: nat): (r: nat)
    ensures r < 0x1_0000
  {
    At(x, p) + 256 * At(x, p + 1)
  }

  function Hash(x: seq<Byte>, p: nat): (h: nat)
    ensures h < HASH_SIZE
  {
    HashOf(ReadU16(x, p), ReadU16(x, p + 1))
  }

  function HashOf(v: nat, u: nat): (h: nat)
    requires v < 0x1_0000 && u < 0x1_0000
    ensures h < HASH_SIZE
  {
    Mixed(v as bv16, u as bv16) as nat % HASH_SIZE
  }

  function Mixed(v: bv16, u: bv16): bv16 {
    v ^ u ^ (v >> 3)
  }

  /** The hash sees three bytes only. */
  lemma HashSeesThree(x: seq<Byte>, p: nat, y: seq<Byte>, q: nat)
    requires At(x, p) == At(y, q) && At(x, p + 1) == At(y, q + 1) && At(x, p + 2) == At(y, q + 2)
    ensures Hash(x, p) == Hash(y, q)
  {
    hide HashOf;
  }

  /** Two values of the mixture. */
  lemma MixedValues()
    ensures Mixed(0x201, 0x302) == 323 && Mixed(0xfeff, 0xfdfe) == 0x1cde
  {
  }

  /** Bytes [lo, hi) repeat the bytes `dist` before them. */
  ghost predicate Repeats(x: seq<Byte>, lo: nat, hi: nat, dist: nat) {
    && 1 <= dist <= lo
    && hi <= |x|
    && forall i :: lo <= i < hi ==> x[i] == x[i - dist]
  }

  // ------------------------------------------------------------------- one position

  /** Level 2 takes three equal bytes after an equal byte as a match at distance 1. */
  ghost predicate RunHere(level: int, x: seq<Byte>, anchor: nat) {
    level == 2 && Repeats(x, anchor, anchor + 3, 1)
  }

  /** The earlier position `ref` is near enough, and as many bytes match as its distance asks. */
  ghost predicate Candidate(level: int, x: seq<Byte>, anchor: nat, ref: nat) {
    && ref < anchor < ref + DistanceLimit(level)
    && Repeats(x, anchor, anchor + Needed(level, anchor - ref), anchor - ref)
  }

  /** Three bytes make a match, five when it is far. */
  function Needed(level: int, distance: nat): nat {
    if level == 2 && distance >= MaxDistance(2) then 5 else 3
  }

  /** How long a match may get.  Two bytes are kept for the end of the input; eight comparisons of
      a copy are made without looking for it. */
  function Limit(x: seq<Byte>, anchor: nat, dist: nat, len: nat): nat
    requires anchor + 12 < |x|
  {
    var n := |x| - 3 - anchor;
    if dist != 1 && n < len + 7 then len + 7 else n
  }

  /** The longest repetition from `anchor` on, of at least m bytes and at most `limit`. */
  function Longest(x: seq<Byte>, anchor: nat, dist: nat, m: nat, limit: nat): (r: nat)
    requires 1 <= dist <= anchor && m <= limit && anchor + limit <= |x|
    ensures m <= r <= limit
    decreases limit - m
  {
    if m < limit && x[anchor + m] == x[anchor + m - dist] then Longest(x, anchor, dist, m + 1, limit) else m
  }

  ghost predicate IsLongest(x: seq<Byte>, anchor: nat, dist: nat, limit: nat, m: nat) {
    && m <= limit && anchor + limit <= |x|
    && Repeats(x, anchor, anchor + m, dist)
    && (m < limit ==> x[anchor + m] != x[anchor + m - dist])
  }

  /** `Longest` is the one length up to the limit that repeats and cannot be made longer. */
  lemma {:induction false} LongestExactly(x: seq<Byte>, anchor: nat, dist: nat, len: nat, limit: nat, m: nat)
    requires anchor + limit <= |x| && len <= limit && Repeats(x, anchor, anchor + len, dist)
    ensures IsLongest(x, anchor, dist, limit, m) <==> m == Longest(x, anchor, dist, len, limit)
    decreases limit - len
  {
    if len < limit && x[anchor + len] == x[anchor + len - dist] {
      LongestExactly(x, anchor, dist, len + 1, limit, m);
    }
  }

  /** What the compressor does at a position: keep the byte as a literal, or copy m bytes. */
  datatype Move = Keep | Copy(dist: nat, m: nat)

  ghost function MoveAt(level: int, x: seq<Byte>, table: seq<nat>, ip: nat): (r: Move)
    requires 2 <= ip && ip + 12 < |x| && |table| == HASH_SIZE
    ensures r.Copy? ==> 1 <= r.dist <= ip && 3 <= r.m && ip + r.m < |x|
  {
    var ref := table[Hash(x, ip)];
    if RunHere(level, x, ip) then Copy(1, Longest(x, ip, 1, 3, Limit(x, ip, 1, 3)))
    else if Candidate(level, x, ip, ref) then
      var dist := ip - ref;
      var len := Needed(level, dist);
      Copy(dist, Longest(x, ip, dist, len, Limit(x, ip, dist, len)))
    else Keep
  }

  /** A match is taken exactly where one begins: a run at distance 1 at level 2, and otherwise the
      position the table has, if it is near enough and enough bytes match.  It is the longest. */
  lemma MoveExactly(level: int, x: seq<Byte>, table: seq<nat>, ip: nat, dist: nat, m: nat)
    requires 2 <= ip && ip + 12 < |x| && |table| == HASH_SIZE && IsLevel(level)
    ensures MoveAt(level, x, table, ip) == Copy(dist, m) <==>
              var ref := table[Hash(x, ip)];
              && (if RunHere(level, x, ip) then dist == 1 else Candidate(level, x, ip, ref) && dist == ip - ref)
              && IsLongest(x, ip, dist, Limit(x, ip, dist, Needed(level, dist)), m)
  {
    hide Longest, Hash;
    var ref := table[Hash(x, ip)];
    if RunHere(level, x, ip) {
      LongestExactly(x, ip, 1, 3, Limit(x, ip, 1, 3), m);
    } else if Candidate(level, x, ip, ref) {
      var len := Needed(level, ip - ref);
      LongestExactly(x, ip, ip - ref, len, Limit(x, ip, ip - ref, len), m);
    }
  }

  /** The table afterwards: this position, unless a run was seen first, and two at the end of a match. */
  ghost function TableAfter(level: int, x: seq<Byte>, table: seq<nat>, ip: nat): (r: seq<nat>)
    requires 2 <= ip && ip + 12 < |x| && |table| == HASH_SIZE
    ensures |r| == HASH_SIZE
  {
    var t := if RunHere(level, x, ip) then table else table[Hash(x, ip) := ip];
    match MoveAt(level, x, table, ip)
    case Keep => t
    case Copy(_, m) => t[Hash(x, ip + m - 2) := ip + m - 2][Hash(x, ip + m - 1) := ip + m - 1]
  }

  // ------------------------------------------------------------------- the tokens

  /** Level 1 splits a match into copies of 262 bytes while its biased length exceeds 262. */
  function MatchTokens(level: int, m: nat, dist: nat): seq<Token>
    requires m >= 3
    decreases m
  {
    if level == 1 && m - 2 > MAX_LEN - 2 then
      [Match(MAX_LEN - 2, dist)] + MatchTokens(level, m - (MAX_LEN - 2), dist)
    else [Match(m, dist)]
  }

  /** The tokens once the open run of `copy` literals is closed. */
  ghost function Closed(input: seq<Byte>, ip: nat, copy: nat, toks: seq<Token>): seq<Token>
    requires copy <= ip <= |input|
  {
    if copy == 0 then toks else toks + [Literal(input[ip - copy..ip])]
  }

  /** The compressor between two positions: `copy` literals are in the open run, `toks` before it. */
  datatype State = State(ip: nat, table: seq<nat>, copy: nat, toks: seq<Token>)

  ghost predicate Fine(x: seq<Byte>, s: State) {
    2 <= s.ip <= |x| && |s.table| == HASH_SIZE && s.copy < MAX_COPY && s.copy <= s.ip
  }

  /** A literal; a run of 32 is closed. */
  ghost function AfterByte(x: seq<Byte>, s: State): (r: State)
    requires Fine(x, s) && s.ip < |x|
    ensures Fine(x, r) && r.ip == s.ip + 1
  {
    if s.copy + 1 == MAX_COPY then State(s.ip + 1, s.table, 0, Closed(x, s.ip + 1, MAX_COPY, s.toks))
    else State(s.ip + 1, s.table, s.copy + 1, s.toks)
  }

  /** One turn of the main loop. */
  ghost function Turn(level: int, x: seq<Byte>, s: State): (r: State)
    requires Fine(x, s) && s.ip + 12 < |x|
    ensures Fine(x, r) && s.ip < r.ip
  {
    var table := TableAfter(level, x, s.table, s.ip);
    match MoveAt(level, x, s.table, s.ip)
    case Keep => AfterByte(x, s.(table := table))
    case Copy(dist, m) =>
      State(s.ip + m, table, 0, Closed(x, s.ip, s.copy, s.toks) + MatchTokens(level, m, dist))
  }

  /** The main loop, and then literals to the end. */
  ghost function Finished(level: int, x: seq<Byte>, s: State): (r: State)
    requires Fine(x, s)
    ensures Fine(x, r) && r.ip == |x|
    decreases |x| - s.ip
  {
    if s.ip + 12 < |x| then Finished(level, x, Turn(level, x, s))
    else if s.ip < |x| then Finished(level, x, AfterByte(x, s))
    else s
  }

  /** The tokens of an input: two literals are kept without a look, and the table starts at 0. */
  ghost function Greedy(level: int, x: seq<Byte>): seq<Token>
    requires |x| >= 4
  {
    var s := Finished(level, x, Begin());
    Closed(x, |x|, s.copy, s.toks)
  }

  ghost function Begin(): (r: State)
    ensures |r.table| == HASH_SIZE && r.ip == 2
  {
    State(2, seq(HASH_SIZE, _ => 0), 2, [])
  }

  // ------------------------------------------------------------------- equal bytes

  /** Equal bytes at level 2: two literals, one match over all but the last three, three literals. */
  lemma EqualBytesTokens(x: seq<Byte>)
    requires |x| >= 15 && forall i :: 0 <= i < |x| ==> x[i] == x[0]
    ensures Greedy(2, x) == [Literal(x[..2]), Match(|x| - 5, 1), Literal(x[|x| - 3..])]
  {
    hide Hash, Longest, Begin;
    var n := |x|;
    assert Repeats(x, 2, 5, 1) && IsLongest(x, 2, 1, n - 5, n - 5);
    LongestExactly(x, 2, 1, 3, n - 5, n - 5);
    BeginIs();
    var s0 := Begin();
    assert MoveAt(2, x, s0.table, 2) == Copy(1, n - 5);
    var s1 := Turn(2, x, s0);
    assert s1.ip == n - 3 && s1.copy == 0 && s1.toks == [Literal(x[0..2])] + [Match(n - 5, 1)];
    assert Finished(2, x, s0) == Finished(2, x, s1);
    LastThree(2, x, s1);
    assert x[n - 3..n] == x[n - 3..] && x[0..2] == x[..2];
  }

  /** At level 1 they are taken from the table, at distance 2. */
  lemma EqualBytesTokens1(x: seq<Byte>)
    requires |x| >= 15 && forall i :: 0 <= i < |x| ==> x[i] == x[0]
    ensures Greedy(1, x) == [Literal(x[..2])] + MatchTokens(1, |x| - 5, 2) + [Literal(x[|x| - 3..])]
  {
    hide Hash, Longest, MatchTokens;
    var n := |x|;
    assert Repeats(x, 2, 5, 2) && IsLongest(x, 2, 2, n - 5, n - 5);
    var s0 := Begin();
    assert s0.table[Hash(x, 2)] == 0;
    MoveExactly(1, x, s0.table, 2, 2, n - 5);
    assert Candidate(1, x, 2, 0);
    assert MoveAt(1, x, s0.table, 2) == Copy(2, n - 5);
    var s1 := Turn(1, x, s0);
    assert s1.ip == n - 3 && s1.copy == 0 && s1.toks == [] + [Literal(x[0..2])] + MatchTokens(1, n - 5, 2);
    assert Finished(1, x, s0) == Finished(1, x, s1);
    LastThree(1, x, s1);
    assert x[n - 3..n] == x[n - 3..] && x[0..2] == x[..2];
    assert [] + [Literal(x[..2])] == [Literal(x[..2])];
  }

  lemma BeginIs()
    ensures Begin().copy == 2 && Begin().toks == [] && Begin().ip == 2
  {
  }

  lemma LastThree(level: int, x: seq<Byte>, s: State)
    requires Fine(x, s) && |x| >= 15 && s.ip == |x| - 3 && s.copy == 0
    ensures var r := Finished(level, x, s); r.copy == 3 && r.toks == s.toks
  {
    hide Turn;
    var a := AfterByte(x, s);
    var b := AfterByte(x, a);
    var c := AfterByte(x, b);
    assert Finished(level, x, s) == Finished(level, x, a) == Finished(level, x, b) == Finished(level, x, c) == c;
  }
}
