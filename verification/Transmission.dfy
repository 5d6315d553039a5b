/**
 Several sends one after the other, each by calls of the write callback until its position
 reaches the end.  The calls follow from the sends and what the socket takes.
 */
module Transmission {
  import opened PartialWrite
  import opened WriteShapes

  /** What the kernel takes of each vector offered, in each call of the write callback, before
      the socket would block. */
  type Socket = nat -> seq<nat>

  /** The send under way, the position in it, and everything written so far. */
  datatype Progress<T> = Progress(send: nat, sent: nat, wire: seq<T>)

  /** One call; the next send begins when the position has reached the end. */
  function Called<T>(resets: bool, sends: seq<seq<seq<T>>>, p: Progress<T>, counts: seq<nat>): Progress<T> {
    if p.send >= |sends| then p
    else
      var (out, sent') := WriteCall(resets, sends[p.send], p.sent, 0, counts);
      if sent' >= |Flat(sends[p.send])| then Progress(p.send + 1, 0, p.wire + out)
      else Progress(p.send, sent', p.wire + out)
  }

  function AfterCalls<T>(resets: bool, sends: seq<seq<seq<T>>>, socket: Socket, n: nat): Progress<T> {
    if n == 0 then Progress(0, 0, []) else Called(resets, sends, AfterCalls(resets, sends, socket, n - 1), socket(n - 1))
  }

  /** Everything the sends hold. */
  function Stream<T>(sends: seq<seq<seq<T>>>): seq<T> {
    if sends == [] then [] else Stream(sends[..|sends| - 1]) + Flat(sends[|sends| - 1])
  }

  ghost predicate NoneVoid<T>(sends: seq<seq<seq<T>>>) {
    forall i :: 0 <= i < |sends| ==> Flat(sends[i]) != []
  }

  /** The progress points between sends and within one. */
  ghost predicate Placed<T>(sends: seq<seq<seq<T>>>, p: Progress<T>) {
    || (p.send == |sends| && p.sent == 0)
    || (p.send < |sends| && p.sent < |Flat(sends[p.send])|)
  }

  /** What should be on the wire by now. */
  ghost function Due<T>(sends: seq<seq<seq<T>>>, p: Progress<T>): seq<T>
    requires Placed(sends, p)
  {
    Stream(sends[..p.send]) + if p.send < |sends| then Flat(sends[p.send])[..p.sent] else []
  }

  /** The wire is wrong for good: too long, or not the beginning of the stream. */
  ghost predicate Spoiled<T>(sends: seq<seq<seq<T>>>, p: Progress<T>) {
    Placed(sends, p) && (|p.wire| > |Due(sends, p)| || !(p.wire <= Stream(sends)))
  }

  ghost predicate HarmlessAt<T>(resets: bool, sends: seq<seq<seq<T>>>, p: Progress<T>, counts: seq<nat>) {
    p.send < |sends| ==> Harmless(resets, sends[p.send], p.sent, false, counts)
  }

  /** None of the first n calls resumed in a way that shows. */
  ghost predicate HarmlessCalls<T>(resets: bool, sends: seq<seq<seq<T>>>, socket: Socket, n: nat) {
    n == 0 || (HarmlessCalls(resets, sends, socket, n - 1)
               && HarmlessAt(resets, sends, AfterCalls(resets, sends, socket, n - 1), socket(n - 1)))
  }

  // ------------------------------------------------------------------- one call

  lemma {:induction false} StreamPrefix<T>(sends: seq<seq<seq<T>>>, i: nat)
    requires i < |sends|
    ensures Stream(sends[..i + 1]) == Stream(sends[..i]) + Flat(sends[i])
    ensures Stream(sends[..i + 1]) <= Stream(sends)
    decreases |sends| - i
  {
    hide Flat;
    assert sends[..i + 1][..i] == sends[..i];
    if i + 1 < |sends| {
      StreamPrefix(sends, i + 1);
    } else {
      assert sends[..i + 1] == sends;
    }
  }

  lemma StreamWhole<T>(sends: seq<seq<seq<T>>>)
    ensures sends[..|sends|] == sends && sends[..0] == []
    ensures Stream(sends[..0]) == []
  {
  }

  /** One call within a send, told by what it writes. */
  lemma CallMoves<T>(resets: bool, sends: seq<seq<seq<T>>>, p: Progress<T>, counts: seq<nat>)
    requires NoneVoid(sends) && Placed(sends, p) && p.send < |sends|
    ensures var p' := Called(resets, sends, p, counts);
            var (out, sent') := WriteCall(resets, sends[p.send], p.sent, 0, counts);
            && Placed(sends, p') && p'.wire == p.wire + out && sent' == p.sent + |out|
            && |Due(sends, p)| == |Stream(sends[..p.send])| + p.sent
            && (sent' >= |Flat(sends[p.send])| ==> Due(sends, p') == Stream(sends[..p.send]) + Flat(sends[p.send]))
            && (sent' < |Flat(sends[p.send])| ==> Due(sends, p') == Stream(sends[..p.send]) + Flat(sends[p.send])[..sent'])
  {
    hide Flat, WriteCall, Stream;
    CallLength(resets, sends[p.send], p.sent, 0, counts);
    StreamPrefix(sends, p.send);
    var p' := Called(resets, sends, p, counts);
    if p'.send == p.send + 1 && p'.send < |sends| {
      assert Flat(sends[p'.send]) != [];
    }
  }

  /** A harmless call leaves exactly what is due. */
  lemma HarmlessMoves<T>(resets: bool, sends: seq<seq<seq<T>>>, p: Progress<T>, counts: seq<nat>)
    requires NoneVoid(sends) && Placed(sends, p) && p.send < |sends|
    requires p.wire == Due(sends, p) && Harmless(resets, sends[p.send], p.sent, false, counts)
    ensures var p' := Called(resets, sends, p, counts); Placed(sends, p') && p'.wire == Due(sends, p')
  {
    hide Flat, WriteCall, Stream, Harmless, NoneVoid, Called;
    CallMoves(resets, sends, p, counts);
    HarmlessCall(resets, sends[p.send], p.sent, counts);
    var all := Flat(sends[p.send]);
    var sent' := WriteCall(resets, sends[p.send], p.sent, 0, counts).1;
    assert all[..p.sent] + all[p.sent..sent'] == all[..sent'];
    assert sent' == |all| ==> all[..sent'] == all;
  }

  /** Any other call spoils the wire. */
  lemma HarmSpoils<T>(resets: bool, sends: seq<seq<seq<T>>>, p: Progress<T>, counts: seq<nat>)
    requires NoneVoid(sends) && Placed(sends, p) && p.send < |sends|
    requires p.wire == Due(sends, p) && !Harmless(resets, sends[p.send], p.sent, false, counts)
    ensures Spoiled(sends, Called(resets, sends, p, counts))
  {
    hide Flat, WriteCall, Stream, Harmless, NoneVoid, Called;
    CallMoves(resets, sends, p, counts);
    HarmlessExactly(resets, sends[p.send], p.sent, 0, counts);
    var p' := Called(resets, sends, p, counts);
    var all := Flat(sends[p.send]);
    var out := WriteCall(resets, sends[p.send], p.sent, 0, counts).0;
    if p'.wire <= Stream(sends) && p.sent + |out| <= |all| {
      StreamPrefix(sends, p.send);
      PrefixOf(Stream(sends[..p.send]), all, p.sent, out, Stream(sends));
    }
  }

  lemma PrefixOf<T>(before: seq<T>, all: seq<T>, sent: nat, out: seq<T>, stream: seq<T>)
    requires sent + |out| <= |all| && before + all <= stream
    requires before + all[..sent] + out <= stream
    ensures out <= all[sent..]
  {
    var wire := before + all[..sent] + out;
    forall i | 0 <= i < |out| ensures out[i] == all[sent..][i] {
      assert out[i] == wire[|before| + sent + i] == stream[|before| + sent + i] == (before + all)[|before| + sent + i];
    }
  }

  /** And it stays spoiled. */
  lemma SpoiledStays<T>(resets: bool, sends: seq<seq<seq<T>>>, p: Progress<T>, counts: seq<nat>)
    requires NoneVoid(sends) && Spoiled(sends, p) && p.send < |sends|
    ensures Spoiled(sends, Called(resets, sends, p, counts))
  {
    hide Flat, WriteCall, Stream, NoneVoid, Called;
    CallMoves(resets, sends, p, counts);
    var p' := Called(resets, sends, p, counts);
    assert p.wire <= p'.wire;
  }

  // ------------------------------------------------------------------- whole transmissions

  /** After any number of calls the wire holds what is due if all of them were harmless, and is
      spoiled otherwise. */
  lemma {:induction false} WireSoFar<T>(resets: bool, sends: seq<seq<seq<T>>>, socket: Socket, n: nat)
    requires NoneVoid(sends)
    ensures var p := AfterCalls(resets, sends, socket, n);
            && Placed(sends, p)
            && if HarmlessCalls(resets, sends, socket, n) then p.wire == Due(sends, p) else Spoiled(sends, p)
  {
    if n == 0 {
      Beginning(sends);
    } else {
      hide Called, Due, Placed, Spoiled, NoneVoid, Harmless, AfterCalls, HarmlessCalls;
      WireSoFar(resets, sends, socket, n - 1);
      OneMoreCall(resets, sends, socket, n - 1);
      NextWire(resets, sends, AfterCalls(resets, sends, socket, n - 1), socket(n - 1),
               HarmlessCalls(resets, sends, socket, n - 1));
    }
  }

  lemma Beginning<T>(sends: seq<seq<seq<T>>>)
    requires NoneVoid(sends)
    ensures var p := Progress(0, 0, []); Placed(sends, p) && p.wire == Due(sends, p)
  {
    StreamWhole(sends);
    assert sends != [] ==> Flat(sends[0]) != [];
  }

  lemma NextWire<T>(resets: bool, sends: seq<seq<seq<T>>>, p: Progress<T>, counts: seq<nat>, good: bool)
    requires NoneVoid(sends) && Placed(sends, p)
    requires if good then p.wire == Due(sends, p) else Spoiled(sends, p)
    ensures var p' := Called(resets, sends, p, counts);
            && Placed(sends, p')
            && if good && HarmlessAt(resets, sends, p, counts) then p'.wire == Due(sends, p') else Spoiled(sends, p')
  {
    hide Flat, WriteCall, Stream, NoneVoid, Harmless;
    if p.send < |sends| {
      CallMoves(resets, sends, p, counts);
      if !good {
        SpoiledStays(resets, sends, p, counts);
      } else if Harmless(resets, sends[p.send], p.sent, false, counts) {
        HarmlessMoves(resets, sends, p, counts);
      } else {
        HarmSpoils(resets, sends, p, counts);
      }
    }
  }

  lemma OneMoreCall<T>(resets: bool, sends: seq<seq<seq<T>>>, socket: Socket, n: nat)
    ensures var p := AfterCalls(resets, sends, socket, n);
            && AfterCalls(resets, sends, socket, n + 1) == Called(resets, sends, p, socket(n))
            && (HarmlessCalls(resets, sends, socket, n + 1) <==>
                HarmlessCalls(resets, sends, socket, n) && HarmlessAt(resets, sends, p, socket(n)))
  {
    hide HarmlessAt, Called;
  }

  /** A finished transmission put on the wire exactly the stream, if and only if every call was
      harmless. */
  lemma FinishedExactly<T>(resets: bool, sends: seq<seq<seq<T>>>, socket: Socket, n: nat)
    requires NoneVoid(sends) && AfterCalls(resets, sends, socket, n).send >= |sends|
    ensures AfterCalls(resets, sends, socket, n).wire == Stream(sends) <==> HarmlessCalls(resets, sends, socket, n)
  {
    hide Stream, HarmlessCalls, NoneVoid, AfterCalls;
    WireSoFar(resets, sends, socket, n);
    StreamWhole(sends);
  }

  /** With the offset cleared on every round all calls are harmless; so they are when each makes
      one short write at most. */
  lemma {:induction false} ResetOrOneWrite<T>(resets: bool, sends: seq<seq<seq<T>>>, socket: Socket, n: nat)
    requires resets || OneWriteEach(socket)
    ensures HarmlessCalls(resets, sends, socket, n)
  {
    hide Harmless, Called;
    if n > 0 {
      ResetOrOneWrite(resets, sends, socket, n - 1);
      var p := AfterCalls(resets, sends, socket, n - 1);
      if p.send < |sends| {
        if resets {
          ResetIsHarmless(sends[p.send], p.sent, socket(n - 1));
        } else {
          OneWriteIsHarmless(resets, sends[p.send], p.sent, socket(n - 1));
        }
      }
    }
  }

  /** A condition on the lengths alone: none of the first n calls resumes inside a buffer after it
      resumed on a boundary with more than one buffer to go. */
  ghost predicate FaithfulCalls<T>(sends: seq<seq<seq<T>>>, socket: Socket, n: nat) {
    n == 0 || (FaithfulCalls(sends, socket, n - 1)
               && FaithfulAt(sends, AfterCalls(false, sends, socket, n - 1), socket(n - 1)))
  }

  ghost predicate FaithfulAt<T>(sends: seq<seq<seq<T>>>, p: Progress<T>, counts: seq<nat>) {
    p.send < |sends| ==> Faithful(sends[p.send], p.sent, false, counts)
  }

  /** Faithful calls are harmless. */
  lemma {:induction false} FaithfulCallsHarmless<T>(sends: seq<seq<seq<T>>>, socket: Socket, n: nat)
    requires FaithfulCalls(sends, socket, n)
    ensures HarmlessCalls(false, sends, socket, n)
  {
    hide Harmless, Faithful, Called;
    if n > 0 {
      FaithfulCallsHarmless(sends, socket, n - 1);
      var p := AfterCalls(false, sends, socket, n - 1);
      if p.send < |sends| {
        FaithfulIsHarmless(sends[p.send], p.sent, false, socket(n - 1));
      }
    }
  }

  ghost predicate OneWriteEach(socket: Socket) {
    forall i: nat :: |socket(i)| <= 1
  }

  /** Once finished, nothing changes. */
  lemma {:induction false} FinishedStays<T>(resets: bool, sends: seq<seq<seq<T>>>, socket: Socket, m: nat, n: nat)
    requires m <= n && AfterCalls(resets, sends, socket, m).send >= |sends|
    ensures AfterCalls(resets, sends, socket, n) == AfterCalls(resets, sends, socket, m)
    decreases n - m
  {
    hide AfterCalls, HarmlessCalls, WriteCall, Flat;
    if m < n {
      FinishedStays(resets, sends, socket, m, n - 1);
      OneMoreCall(resets, sends, socket, n - 1);
    }
  }
}
