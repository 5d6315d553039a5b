/**
 When a write call is right whatever the buffers hold: a condition on their lengths alone.
 */
module WriteShapes {
  import opened PartialWrite

  /** No round of the call that writes anything resumes inside a buffer after an earlier round
      resumed on a boundary with more than one buffer to go. */
  predicate Faithful<T>(bufs: seq<seq<T>>, sent: nat, stale: bool, counts: seq<nat>)
    decreases |counts|
  {
    var total := |Flat(bufs)|;
    sent >= total || counts == [] ||
    (&& (stale ==> OnBoundary(bufs, sent))
     && Faithful(bufs, sent + Accepted(counts[0], total - sent), stale || GoesStale(bufs, sent), counts[1..]))
  }

  /** A faithful call is harmless, whatever the buffers hold. */
  lemma {:induction false} FaithfulIsHarmless<T>(bufs: seq<seq<T>>, sent: nat, stale: bool, counts: seq<nat>)
    requires Faithful(bufs, sent, stale, counts)
    ensures Harmless(false, bufs, sent, stale, counts)
    decreases |counts|
  {
    if sent < |Flat(bufs)| && counts != [] {
      hide Flat, Start, GoesStale;
      FaithfulIsHarmless(bufs, sent + Accepted(counts[0], |Flat(bufs)| - sent), stale || GoesStale(bufs, sent), counts[1..]);
    }
  }

  /** Buffers of the same lengths, whatever they hold. */
  predicate SameShape<T>(bufs: seq<seq<T>>, bufs': seq<seq<T>>) {
    |bufs| == |bufs'| && forall i :: 0 <= i < |bufs| ==> |bufs[i]| == |bufs'[i]|
  }

  /** The positions, offsets and so the faithfulness of a call depend on the lengths only. */
  lemma {:induction false} ShapeDecides<T>(bufs: seq<seq<T>>, bufs': seq<seq<T>>, sent: nat, sum: nat, k: int)
    requires SameShape(bufs, bufs')
    ensures |Flat(bufs)| == |Flat(bufs')|
    ensures Start(bufs, sent, sum) == Start(bufs', sent, sum) && Left(bufs, sent, sum) == Left(bufs', sent, sum)
    ensures Pass(bufs, sent, sum, k).1 == Pass(bufs', sent, sum, k).1
  {
    if bufs != [] {
      var sum' := sum + |bufs[0]|;
      assert |bufs[0]| == |bufs'[0]|;
      ShapeDecides(bufs[1..], bufs'[1..], sent, sum', if sum' > sent && k == 0 && sent > 0 then sent - sum else k);
    }
  }

  lemma ShapeDecidesRound<T>(bufs: seq<seq<T>>, bufs': seq<seq<T>>, sent: nat, k: int)
    requires SameShape(bufs, bufs')
    ensures |Flat(bufs)| == |Flat(bufs')| && Round(bufs, sent, k).1 == Round(bufs', sent, k).1
    ensures OnBoundary(bufs, sent) == OnBoundary(bufs', sent) && GoesStale(bufs, sent) == GoesStale(bufs', sent)
  {
    ShapeDecides(bufs, bufs', sent, 0, k);
  }

  lemma {:induction false} ShapeDecidesCall<T>(bufs: seq<seq<T>>, bufs': seq<seq<T>>, sent: nat, stale: bool, counts: seq<nat>)
    requires SameShape(bufs, bufs')
    ensures Faithful(bufs, sent, stale, counts) == Faithful(bufs', sent, stale, counts)
    decreases |counts|
  {
    hide SameShape, Flat, OnBoundary, GoesStale;
    ShapeDecidesRound(bufs, bufs', sent, 0);
    if sent < |Flat(bufs)| && counts != [] {
      ShapeDecidesCall(bufs, bufs', sent + Accepted(counts[0], |Flat(bufs)| - sent), stale || GoesStale(bufs, sent), counts[1..]);
    }
  }

  /** A sequence cut into the lengths of some buffers. */
  function Reshaped<T>(bufs: seq<seq<T>>, all: seq<T>): (r: seq<seq<T>>)
    requires |all| == |Flat(bufs)|
    ensures SameShape(bufs, r) && Flat(r) == all
  {
    if bufs == [] then []
    else
      var rest := Reshaped(bufs[1..], all[|bufs[0]|..]);
      var r := [all[..|bufs[0]|]] + rest;
      assert r[1..] == rest && all == all[..|bufs[0]|] + all[|bufs[0]|..];
      r
  }

  /** The call writes the next bytes, whatever the buffers hold. */
  ghost predicate AlwaysRight<T(!new)>(bufs: seq<seq<T>>, sent: nat, counts: seq<nat>) {
    forall bufs': seq<seq<T>> :: SameShape(bufs, bufs') ==> Right(false, bufs', sent, 0, counts)
  }

  /** For given buffer lengths, a call transmits the next bytes in order whatever all of them are,
      if and only if it is faithful. */
  lemma FaithfulExactly<T(!new)>(bufs: seq<seq<T>>, sent: nat, counts: seq<nat>, a: T, b: T)
    requires sent <= |Flat(bufs)| && a != b
    ensures AlwaysRight(bufs, sent, counts) <==> Faithful(bufs, sent, false, counts)
  {
    hide SameShape, Flat, Faithful, WriteCall, Harmless, Right;
    if Faithful(bufs, sent, false, counts) {
      forall bufs': seq<seq<T>> | SameShape(bufs, bufs') ensures Right(false, bufs', sent, 0, counts) {
        ShapeDecidesRound(bufs, bufs', sent, 0);
        ShapeDecidesCall(bufs, bufs', sent, false, counts);
        FaithfulIsHarmless(bufs', sent, false, counts);
        HarmlessExactly(false, bufs', sent, 0, counts);
      }
    } else {
      var bufs' := WrongContents(bufs, sent, 0, counts, a, b);
    }
  }

  /** What to put into the buffers so that an unfaithful call shows: one byte unlike the others,
      at the position where it first resumes wrongly. */
  lemma {:induction false} WrongContents<T>(bufs: seq<seq<T>>, sent: nat, k: int, counts: seq<nat>, a: T, b: T)
      returns (bufs': seq<seq<T>>)
    requires sent <= |Flat(bufs)| && k <= 0 && a != b
    requires !Faithful(bufs, sent, k < 0, counts)
    ensures SameShape(bufs, bufs') && !Right(false, bufs', sent, k, counts)
    decreases |counts|
  {
    hide Flat, Round, SameShape, OnBoundary, GoesStale;
    AnyRound(bufs, sent, k);
    var total, k' := |Flat(bufs)|, Round(bufs, sent, k).1;
    if k < 0 && !OnBoundary(bufs, sent) {
      bufs' := Reshaped(bufs, seq(total, i => if i == sent then a else b));
      ShapeDecidesRound(bufs, bufs', sent, k);
      AnyRound(bufs', sent, k);
      OffBoundary(bufs', sent);
      assert WriteCall(false, bufs', sent, k, counts).0[0] == Round(bufs', sent, k).0[0] == b;
      assert Flat(bufs')[sent..][0] == a;
    } else {
      OffBoundary(bufs, sent);
      var n := Accepted(counts[0], total - sent);
      bufs' := WrongContents(bufs, sent + n, k', counts[1..], a, b);
      ShapeDecidesRound(bufs, bufs', sent, k);
      AnyRound(bufs', sent, k);
      OffBoundary(bufs', sent);
      PrefixCancelAt(Flat(bufs'), sent, n, WriteCall(false, bufs', sent + n, k', counts[1..]).0);
    }
  }

  lemma OffBoundary<T>(bufs: seq<seq<T>>, sent: nat)
    ensures OnBoundary(bufs, sent) <==> Start(bufs, sent, 0) == sent
  {
  }

  /** Resumption is not right in general.  A write that ends on the first boundary and then a one-byte
      write inside the second buffer are followed by that same byte again.  A third write of two
      bytes reaches the end by position, with the last byte never sent; one of three passes it. */
  lemma RepeatedByte(m: nat)
    requires 1 <= m <= 3
    ensures var bufs := [[10], [20, 21], [30]];
            && Flat(bufs) == [10, 20, 21, 30]
            && WriteCall(false, bufs, 0, 0, [1, 1, m]) == ([10, 20] + [20, 21, 30][..m], 2 + m)
            && !Faithful(bufs, 0, false, [1, 1, m]) && !Harmless(false, bufs, 0, false, [1, 1, m])
  {
    hide Round, Flat, Start, Left, WriteCall, Faithful, Harmless;
    var bufs := [[10], [20, 21], [30]];
    ExampleBuffers();
    AnyRound(bufs, 0, 0);
    AnyRound(bufs, 1, 0);
    var k := Round(bufs, 1, 0).1;
    AnyRound(bufs, 2, k);
    OneMore(bufs, 2, k, m, []);
    OneMore(bufs, 1, 0, 1, [m]);
    OneMore(bufs, 0, 0, 1, [1, m]);
    NoMore(bufs, 2 + m, Round(bufs, 2, k).1);
    assert [1] + [1, m] == [1, 1, m] && [1] + [m] == [1, m] && [m] + [] == [m];
    var rest := [20, 21, 30];
    var all := [10, 20, 21, 30];
    assert all[1..] == rest && all[1..][..1] == [20] && all[0..][..1] == [10];
    assert WriteCall(false, bufs, 2, k, [m]) == (rest[..m] + [], 2 + m);
    assert rest[..m] + [] == rest[..m];
    assert WriteCall(false, bufs, 1, 0, [1, m]) == ([20] + rest[..m], 2 + m);
    assert [10] + ([20] + rest[..m]) == [10, 20] + rest[..m];
    HarmlessExactly(false, bufs, 0, 0, [1, 1, m]);
    assert ([10, 20] + rest[..m])[2] == 20 && all[0..][2] == 21;
  }

  lemma ExampleBuffers()
    ensures var bufs := [[10], [20, 21], [30]];
            && Flat(bufs) == [10, 20, 21, 30]
            && Start(bufs, 2, 0) == 1 && Start(bufs, 1, 0) == 1 && Left(bufs, 1, 0) == 2
  {
    var bufs := [[10], [20, 21], [30]];
    assert bufs[1..] == [[20, 21], [30]] && bufs[1..][1..] == [[30]];
    assert Flat([[30]]) == [30];
    assert Flat([[20, 21], [30]]) == [20, 21, 30];
  }

  lemma NoMore(bufs: seq<seq<int>>, sent: nat, k: int)
    ensures WriteCall(false, bufs, sent, k, []) == ([], sent)
  {
  }

  lemma OneMore(bufs: seq<seq<int>>, sent: nat, k: int, n: nat, counts: seq<nat>)
    requires k <= 0 && sent < |Flat(bufs)| && 1 <= n <= |Round(bufs, sent, k).0|
    ensures var (offer, k') := Round(bufs, sent, k);
            var (more, sent') := WriteCall(false, bufs, sent + n, k', counts);
            WriteCall(false, bufs, sent, k, [n] + counts) == (offer[..n] + more, sent')
    ensures Faithful(bufs, sent, k < 0, [n] + counts) ==>
            && (k < 0 ==> OnBoundary(bufs, sent))
            && (sent + n <= |Flat(bufs)| ==> Faithful(bufs, sent + n, Round(bufs, sent, k).1 < 0, counts))
  {
    hide Round;
    AnyRound(bufs, sent, k);
    var cs: seq<nat> := [n] + counts;
    assert cs[1..] == counts;
  }

  /** A call that is offered one short write only, or two from the very start, is faithful. */
  lemma FewWritesAreFaithful<T>(bufs: seq<seq<T>>, sent: nat, counts: seq<nat>)
    requires |counts| <= 1 || (sent == 0 && |counts| <= 2)
    ensures Faithful(bufs, sent, false, counts)
  {
    if |counts| == 2 {
      assert counts[1..][1..] == [];
    }
  }
}
