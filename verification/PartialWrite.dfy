/**
 Gathering buffers for a vectored write and resuming after short writes.

 The write loop keeps an offset `k` into the first unsent buffer and only clears it when it is
 positive.  When a resume point falls exactly on a buffer boundary, the gather computes a
 negative offset, which stays for the rest of the call and keeps later rounds from skipping
 bytes already sent.  `Harmless` says exactly when a call escapes this.  With `resets` the offset
 is cleared on every round instead, as the loop is meant to do.
 */
module PartialWrite {

  function Flat<T>(bufs: seq<seq<T>>): seq<T> {
    if bufs == [] then [] else bufs[0] + Flat(bufs[1..])
  }

  lemma {:induction false} FlatAppend<T>(a: seq<seq<T>>, b: seq<seq<T>>)
    ensures Flat(a + b) == Flat(a) + Flat(b)
  {
    if a == [] {
      assert a + b == b;
    } else {
      assert (a + b)[1..] == a[1..] + b;
      FlatAppend(a[1..], b);
    }
  }

  /** One pass over the buffers: those that end after `sent`, and the offset. */
  function Pass<T>(bufs: seq<seq<T>>, sent: nat, sum: nat, k: int): (seq<seq<T>>, int) {
    if bufs == [] then ([], k)
    else
      var sum' := sum + |bufs[0]|;
      if sum' > sent then
        var k' := if k == 0 && sent > 0 then sent - sum else k;
        var (v, k'') := Pass(bufs[1..], sent, sum', k');
        ([bufs[0]] + v, k'')
      else Pass(bufs[1..], sent, sum', k)
  }

  /** Skip a positive offset in the first buffer. */
  function Trim<T>(v: seq<seq<T>>, k: int): seq<seq<T>> {
    if v != [] && 0 < k <= |v[0]| then [v[0][k..]] + v[1..] else v
  }

  /** What one round offers to be written, and the offset left for the next round. */
  function Round<T>(bufs: seq<seq<T>>, sent: nat, k: int): (seq<T>, int) {
    var (v, k') := Pass(bufs, sent, 0, k);
    (Flat(Trim(v, k')), if k' > 0 then 0 else k')
  }

  // ------------------------------------------------------------------- one round

  /** Where the buffer holding position `sent` starts. */
  function Start<T>(bufs: seq<seq<T>>, sent: nat, sum: nat): nat {
    if bufs == [] then sum
    else if sum + |bufs[0]| > sent then sum
    else Start(bufs[1..], sent, sum + |bufs[0]|)
  }

  /** How many buffers end after position `sent`. */
  function Left<T>(bufs: seq<seq<T>>, sent: nat, sum: nat): nat {
    if bufs == [] then 0
    else if sum + |bufs[0]| > sent then |bufs|
    else Left(bufs[1..], sent, sum + |bufs[0]|)
  }

  predicate OnBoundary<T>(bufs: seq<seq<T>>, sent: nat) {
    Start(bufs, sent, 0) == sent
  }

  /** The resume points at which the offset goes negative. */
  predicate GoesStale<T>(bufs: seq<seq<T>>, sent: nat) {
    sent > 0 && OnBoundary(bufs, sent) && Left(bufs, sent, 0) > 1
  }

  /** Once past `sent`, every buffer is taken whole. */
  lemma {:induction false} PassRest<T>(bufs: seq<seq<T>>, sent: nat, sum: nat, k: int)
    requires sum > sent && k != 0
    ensures Pass(bufs, sent, sum, k) == (bufs, k)
  {
    if bufs != [] {
      assert [bufs[0]] + bufs[1..] == bufs;
      PassRest(bufs[1..], sent, sum + |bufs[0]|, k);
    }
  }

  lemma {:induction false} PassRestFresh<T>(bufs: seq<seq<T>>, sent: nat, sum: nat)
    requires sum > sent
    ensures Pass(bufs, sent, sum, 0) == (bufs, if sent > 0 && bufs != [] then sent - sum else 0)
  {
    if bufs != [] {
      assert [bufs[0]] + bufs[1..] == bufs;
      if sent > 0 {
        PassRest(bufs[1..], sent, sum + |bufs[0]|, sent - sum);
      } else {
        PassRestFresh(bufs[1..], sent, sum + |bufs[0]|);
      }
    }
  }

  /** A pass takes exactly the buffers from `Start` on; the offset depends on how it began. */
  lemma {:induction false} PassTakes<T>(bufs: seq<seq<T>>, sent: nat, sum: nat, k: int)
    requires k <= 0 && sum <= sent < sum + |Flat(bufs)|
    ensures var (v, k') := Pass(bufs, sent, sum, k);
            var s := Start(bufs, sent, sum);
            && sum <= s <= sent && v != [] && s + |v[0]| > sent && |v| == Left(bufs, sent, sum)
            && Flat(v) == Flat(bufs)[s - sum..]
            && (k < 0 ==> k' == k)
            && (k == 0 && s < sent ==> k' == sent - s)
            && (k == 0 && s == sent ==> if sent > 0 && |v| > 1 then k' < 0 else k' == 0)
  {
    var b, rest := bufs[0], bufs[1..];
    var sum' := sum + |b|;
    assert Flat(bufs) == b + Flat(rest);
    if sum' > sent {
      var k1 := if k == 0 && sent > 0 then sent - sum else k;
      if k1 != 0 {
        PassRest(rest, sent, sum', k1);
      } else {
        PassRestFresh(rest, sent, sum');
      }
      assert [b] + rest == bufs;
      assert Flat(bufs)[0..] == Flat(bufs);
    } else {
      PassTakes(rest, sent, sum', k);
      var s := Start(bufs, sent, sum);
      assert Flat(bufs)[s - sum..] == Flat(rest)[s - sum'..];
    }
  }

  /** A round that starts with a cleared offset offers exactly the unsent suffix, and leaves a
      negative offset exactly when it resumes on a boundary with more than one buffer to go. */
  lemma FreshRound<T>(bufs: seq<seq<T>>, sent: nat)
    requires sent < |Flat(bufs)|
    ensures Round(bufs, sent, 0).0 == Flat(bufs)[sent..]
    ensures if GoesStale(bufs, sent) then Round(bufs, sent, 0).1 < 0 else Round(bufs, sent, 0).1 == 0
  {
    PassTakes(bufs, sent, 0, 0);
    var (v, k) := Pass(bufs, sent, 0, 0);
    var s := Start(bufs, sent, 0);
    if k > 0 {
      assert Trim(v, k)[1..] == v[1..];
      assert Flat(Trim(v, k)) == Flat(v)[k..];
      assert Flat(bufs)[s..][k..] == Flat(bufs)[sent..];
    }
  }

  /** A round that starts with a negative offset offers whole buffers, from the start of the
      one it should resume in. */
  lemma StaleRound<T>(bufs: seq<seq<T>>, sent: nat, k: int)
    requires k < 0 && sent < |Flat(bufs)|
    ensures Start(bufs, sent, 0) <= sent
    ensures Round(bufs, sent, k) == (Flat(bufs)[Start(bufs, sent, 0)..], k)
  {
    PassTakes(bufs, sent, 0, k);
  }

  /** Either way the offset stays negative once it is, and the offer is right unless the round
      began with a negative offset away from a boundary. */
  lemma AnyRound<T>(bufs: seq<seq<T>>, sent: nat, k: int)
    requires k <= 0 && sent < |Flat(bufs)|
    ensures var (offer, k') := Round(bufs, sent, k);
            && k' <= 0 && (k' < 0 <==> k < 0 || GoesStale(bufs, sent))
            && Start(bufs, sent, 0) <= sent
            && offer == Flat(bufs)[if k < 0 then Start(bufs, sent, 0) else sent..]
  {
    hide Round;
    if k < 0 { StaleRound(bufs, sent, k); } else { FreshRound(bufs, sent); PassTakes(bufs, sent, 0, 0); }
  }

  // ------------------------------------------------------------------- one call

  /** The kernel takes at least one byte of what is offered, and no more than that. */
  function Accepted(count: nat, offered: nat): nat {
    if offered == 0 then 0 else if count == 0 then 1 else if count > offered then offered else count
  }

  /** One call of the write loop: rounds until everything is sent or the counts run out (the
      socket would block).  Gives what was written and the new position. */
  function WriteCall<T>(resets: bool, bufs: seq<seq<T>>, sent: nat, k: int, counts: seq<nat>): (seq<T>, nat)
    decreases |counts|
  {
    if sent >= |Flat(bufs)| || counts == [] then ([], sent)
    else
      var (offer, k') := Round(bufs, sent, k);
      var n := Accepted(counts[0], |offer|);
      var (more, sent') := WriteCall(resets, bufs, sent + n, if resets then 0 else k', counts[1..]);
      (offer[..n] + more, sent')
  }

  /** Where the bytes a round offers begin: with a negative offset, at the start of the buffer. */
  function From<T>(bufs: seq<seq<T>>, sent: nat, stale: bool): nat {
    if stale then Start(bufs, sent, 0) else sent
  }

  /** How much there is from a position on. */
  function Ahead<T>(all: seq<T>, from: nat): nat {
    if from <= |all| then |all| - from else 0
  }

  /** The n bytes at `from` are the n bytes due at `sent`. */
  predicate SameBytes<T(==)>(all: seq<T>, from: nat, sent: nat, n: nat) {
    from <= sent && sent + n <= |all| && all[from..from + n] == all[sent..sent + n]
  }

  /** Wherever a round begins away from its position, what is taken of it happens to be the bytes
      that were due. */
  predicate Harmless<T(==)>(resets: bool, bufs: seq<seq<T>>, sent: nat, stale: bool, counts: seq<nat>)
    decreases |counts|
  {
    var all := Flat(bufs);
    sent >= |all| || counts == [] ||
    (var from := From(bufs, sent, stale);
     var n := Accepted(counts[0], Ahead(all, from));
     && SameBytes(all, from, sent, n)
     && Harmless(resets, bufs, sent + n, !resets && (stale || GoesStale(bufs, sent)), counts[1..]))
  }

  /** What the call writes is what comes next. */
  predicate Right<T(==)>(resets: bool, bufs: seq<seq<T>>, sent: nat, k: int, counts: seq<nat>) {
    sent <= |Flat(bufs)| && WriteCall(resets, bufs, sent, k, counts).0 <= Flat(bufs)[sent..]
  }

  /** Every call, on every content, writes the next bytes in order if and only if it is harmless. */
  lemma {:induction false} HarmlessExactly<T>(resets: bool, bufs: seq<seq<T>>, sent: nat, k: int, counts: seq<nat>)
    requires sent <= |Flat(bufs)| && k <= 0
    ensures Right(resets, bufs, sent, k, counts) <==> Harmless(resets, bufs, sent, k < 0, counts)
    decreases |counts|
  {
    hide Flat, Round, GoesStale, SameBytes, WriteCall, Harmless, From;
    if sent >= |Flat(bufs)| || counts == [] {
      NoRound(resets, bufs, sent, k, counts);
    } else {
      var from, n, k1, more := FirstRound(resets, bufs, sent, k, counts);
      FirstBytes(Flat(bufs), from, sent, n, more);
      if SameBytes(Flat(bufs), from, sent, n) {
        HarmlessExactly(resets, bufs, sent + n, k1, counts[1..]);
      }
    }
  }

  lemma NoRound<T>(resets: bool, bufs: seq<seq<T>>, sent: nat, k: int, counts: seq<nat>)
    requires sent >= |Flat(bufs)| || counts == []
    ensures WriteCall(resets, bufs, sent, k, counts) == ([], sent)
    ensures Harmless(resets, bufs, sent, k < 0, counts)
  {
  }

  /** The first round of a call takes n bytes at `from` and leaves the offset `k1`. */
  lemma FirstRound<T>(resets: bool, bufs: seq<seq<T>>, sent: nat, k: int, counts: seq<nat>)
      returns (from: nat, n: nat, k1: int, more: seq<T>)
    requires sent < |Flat(bufs)| && k <= 0 && counts != []
    ensures from == From(bufs, sent, k < 0) <= sent && from + n <= |Flat(bufs)|
    ensures n == Accepted(counts[0], |Flat(bufs)| - from)
    ensures k1 <= 0 && (k1 < 0 <==> !resets && (k < 0 || GoesStale(bufs, sent)))
    ensures more == WriteCall(resets, bufs, sent + n, k1, counts[1..]).0
    ensures WriteCall(resets, bufs, sent, k, counts).0 == Flat(bufs)[from..][..n] + more
    ensures Harmless(resets, bufs, sent, k < 0, counts) <==>
              SameBytes(Flat(bufs), from, sent, n) && Harmless(resets, bufs, sent + n, k1 < 0, counts[1..])
  {
    hide Flat, Round, GoesStale, SameBytes;
    AnyRound(bufs, sent, k);
    from := From(bufs, sent, k < 0);
    n := Accepted(counts[0], Ahead(Flat(bufs), from));
    k1 := if resets then 0 else Round(bufs, sent, k).1;
    more := WriteCall(resets, bufs, sent + n, k1, counts[1..]).0;
  }

  /** The bytes of the first round decide, or else the rest does. */
  lemma FirstBytes<T>(all: seq<T>, from: nat, sent: nat, n: nat, more: seq<T>)
    requires from <= sent <= |all| && from + n <= |all|
    ensures SameBytes(all, from, sent, n) ==> sent + n <= |all|
    ensures all[from..][..n] + more <= all[sent..] <==>
              SameBytes(all, from, sent, n) && sent + n <= |all| && more <= all[sent + n..]
  {
    if SameBytes(all, from, sent, n) {
      SamePrefix(all, from, sent, n, more);
    } else if all[from..][..n] + more <= all[sent..] {
      PrefixSame(all, from, sent, n, more);
    }
  }

  lemma SamePrefix<T>(all: seq<T>, from: nat, sent: nat, n: nat, more: seq<T>)
    requires SameBytes(all, from, sent, n)
    ensures all[from..][..n] + more <= all[sent..] <==> more <= all[sent + n..]
  {
    assert all[from..][..n] == all[from..from + n] == all[sent..sent + n] == all[sent..][..n];
    PrefixCancelAt(all, sent, n, more);
  }

  lemma PrefixSame<T>(all: seq<T>, from: nat, sent: nat, n: nat, more: seq<T>)
    requires from <= sent <= |all| && n <= |all| - from && all[from..][..n] + more <= all[sent..]
    ensures SameBytes(all, from, sent, n)
  {
    var out := all[from..][..n] + more;
    assert sent + n <= |all|;
    assert all[from..from + n] == all[from..][..n] == out[..n] == all[sent..][..n] == all[sent..sent + n];
  }

  /** The position counts the bytes written, right or wrong. */
  lemma {:induction false} CallLength<T>(resets: bool, bufs: seq<seq<T>>, sent: nat, k: int, counts: seq<nat>)
    ensures var (out, sent') := WriteCall(resets, bufs, sent, k, counts);
            sent' == sent + |out|
    decreases |counts|
  {
    if sent < |Flat(bufs)| && counts != [] {
      hide Flat, Round;
      var (offer, k') := Round(bufs, sent, k);
      CallLength(resets, bufs, sent + Accepted(counts[0], |offer|), if resets then 0 else k', counts[1..]);
    }
  }

  /** A harmless call transmits the next bytes, each once and in order, and then its position
      reaches the end if and only if every byte was transmitted. */
  lemma HarmlessCall<T>(resets: bool, bufs: seq<seq<T>>, sent: nat, counts: seq<nat>)
    requires sent <= |Flat(bufs)| && Harmless(resets, bufs, sent, false, counts)
    ensures var (out, sent') := WriteCall(resets, bufs, sent, 0, counts);
            && sent <= sent' <= |Flat(bufs)| && out == Flat(bufs)[sent..sent']
            && (sent' >= |Flat(bufs)| <==> out == Flat(bufs)[sent..])
  {
    hide Flat, WriteCall, Harmless;
    HarmlessExactly(resets, bufs, sent, 0, counts);
    CallLength(resets, bufs, sent, 0, counts);
    var out := WriteCall(resets, bufs, sent, 0, counts).0;
    assert out == Flat(bufs)[sent..][..|out|] == Flat(bufs)[sent..sent + |out|];
  }

  /** With the offset cleared on every round, every call is harmless. */
  lemma {:induction false} ResetIsHarmless<T>(bufs: seq<seq<T>>, sent: nat, counts: seq<nat>)
    ensures Harmless(true, bufs, sent, false, counts)
    decreases |counts|
  {
    if sent < |Flat(bufs)| && counts != [] {
      ResetIsHarmless(bufs, sent + Accepted(counts[0], |Flat(bufs)| - sent), counts[1..]);
    }
  }

  /** And so is every call that makes one short write only. */
  lemma OneWriteIsHarmless<T>(resets: bool, bufs: seq<seq<T>>, sent: nat, counts: seq<nat>)
    requires |counts| <= 1
    ensures Harmless(resets, bufs, sent, false, counts)
  {
    hide Flat, GoesStale;
  }

  /** Right or wrong, a call that can write at all moves the position.  It can move it past the
      end. */
  lemma {:induction false} CallAdvances<T>(resets: bool, bufs: seq<seq<T>>, sent: nat, k: int, counts: seq<nat>)
    requires sent < |Flat(bufs)| && k <= 0
    ensures WriteCall(resets, bufs, sent, k, counts).1 >= sent
    ensures counts != [] ==> WriteCall(resets, bufs, sent, k, counts).1 > sent
  {
    CallLength(resets, bufs, sent, k, counts);
    if counts != [] {
      hide Flat, Round;
      AnyRound(bufs, sent, k);
      var (offer, k') := Round(bufs, sent, k);
      var n := Accepted(counts[0], |offer|);
      CallLength(resets, bufs, sent + n, if resets then 0 else k', counts[1..]);
    }
  }

  lemma PrefixCancel<T>(a: seq<T>, b: seq<T>, c: seq<T>)
    ensures a + b <= a + c <==> b <= c
  {
    if a + b <= a + c {
      assert (a + b)[|a|..] == b && (a + c)[|a|..] == c;
      assert forall i :: 0 <= i < |b| ==> b[i] == (a + b)[|a| + i] == (a + c)[|a| + i] == c[i];
    }
    if b <= c {
      assert a + c == a + b + c[|b|..];
    }
  }

  lemma PrefixCancelAt<T>(all: seq<T>, sent: nat, n: nat, more: seq<T>)
    requires sent + n <= |all|
    ensures all[sent..][..n] + more <= all[sent..] <==> more <= all[sent + n..]
  {
    assert all[sent..] == all[sent..][..n] + all[sent + n..];
    PrefixCancel(all[sent..][..n], more, all[sent + n..]);
  }
}
