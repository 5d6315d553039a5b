/**
 A chunked response from the first echo to the end of the request: collecting output, framing
 it, writing it with short writes, and carrying over echoes larger than all buffers.  Its state
 is tied to the stage of the plan that its echoes and flushes have reached.
 */
module Response {
  import opened Bytes
  import opened ChunkedBody
  import opened PartialWrite
  import opened ResponseBuffers
  import opened ResponsePlan

  /** `Process`: the script runs; `Send`: buffers are being written; `Ended`: all is written. */
  datatype Status = Process | Send | Ended

  /** No slot of the body holds more than its allocation. */
  ghost predicate SlotsFit(size: nat, iov: seq<Buffer>) {
    forall i :: 1 <= i < |iov| ==> |Data(iov[i])| <= size
  }

  class Epd {
    const size: nat          // EP_D_BUF_SIZE
    const header: seq<Byte>  // the response header, ending in an empty line
    const resets: bool       // the offset of the write loop is cleared on every round
    var iov: seq<Buffer>
    var bufCount: nat
    var contentLength: nat
    var bufSended: nat
    var headerSended: nat
    var status: Status
    var nextOut: Option<seq<Byte>>  // what send_then_send still has to send
    var wire: seq<Byte>             // everything the socket has accepted

    ghost var parts: seq<seq<Byte>> // the pieces flushed
    ghost var rest: seq<Byte>       // what the end of the request found collected

    /** The first slot being sent: headers go with the first flush only. */
    function First(): nat
      reads this
    {
      if headerSended == 0 || headerSended == 5 then 0 else 1
    }

    /** The slots being sent, as byte strings. */
    ghost function Bufs(): seq<seq<Byte>>
      requires First() <= bufCount <= |iov|
      reads this
    {
      Datas(iov[First()..bufCount])
    }

    /** How many bytes of the current send are left, by position. */
    function Unsent(): int
      reads this
    {
      contentLength - bufSended
    }

    ghost predicate Collecting()
      reads this
    {
      && Filling(size, iov, bufCount) && Tight(iov, bufCount)
      && headerSended in {0, 1}
      && contentLength == |Body(iov, bufCount)|
      && (iov[1].Some? ==> iov[1].value != [])
      && bufSended == 0 && nextOut.None?
      && (headerSended == 0 <==> parts == [])
    }

    /** The buffers are those of the last piece, or of the end of the request. */
    ghost predicate Sending()
      reads this
    {
      && headerSended in {1, 2, 5}
      && |iov| == SLOTS && First() < bufCount <= SLOTS
      && contentLength == |Flat(Bufs())|
      && bufSended < contentLength
      && parts != []
      && (headerSended == 5 ==> |parts| == 1) && (headerSended == 1 ==> |parts| > 1)
      && Bufs() == SendAt(size, header, Stage(parts, rest), Index())
      && (nextOut.Some? ==> nextOut.value != [] && headerSended != 2)
    }

    /** Which send of the response is under way, or comes next. */
    ghost function Index(): nat
      reads this
    {
      if status == Send && headerSended != 2 && parts != [] then |parts| - 1
      else if status == Ended then |parts| + 1
      else |parts|
    }

    ghost predicate Valid()
      reads this
    {
      && BufferSize(size) && 0 < |header| < size
      && match status
         case Process => Collecting()
         case Send => Sending()
         case Ended => headerSended == 2
    }

    /** The stage of the plan: an echo counts in full as soon as it is made, even when part of it
        is still to be offered. */
    ghost function Reached(): Stage
      requires Valid()
      reads this
    {
      if status == Process then Stage(parts, Body(iov, bufCount))
      else if status == Send && headerSended != 2 then Offered(Capacity(size), Stage(parts, []), Data(nextOut))
      else Stage(parts, rest)
    }

    constructor (size: nat, header: seq<Byte>, resets: bool)
      requires BufferSize(size) && 0 < |header| < size
      ensures Valid() && status == Process && headerSended == 0 && wire == []
      ensures this.size == size && this.header == header && this.resets == resets
      ensures Reached() == Stage([], [])
    {
      this.size, this.header, this.resets := size, header, resets;
      iov := seq(SLOTS, _ => None);
      bufCount, contentLength, bufSended, headerSended := 0, 0, 0, 0;
      status, nextOut, wire := Process, None, [];
      parts, rest := [], [];
      new;
      EmptyBody(size, iov, 0);
    }

    /** network_send: append to the body buffers as far as they go.  Returns how many bytes did
        not fit. */
    method NetworkSend(data: seq<Byte>) returns (rest: nat)
      requires BufferSize(size) && Filling(size, iov, bufCount)
      requires contentLength == |Body(iov, bufCount)| && data != []
      modifies this`iov, this`bufCount, this`contentLength
      ensures Filling(size, iov, bufCount) && Tight(iov, bufCount) && contentLength == |Body(iov, bufCount)|
      ensures rest == |data| - Fitting(size, old(contentLength), |data|)
      ensures Body(iov, bufCount) == old(Body(iov, bufCount)) + data[..|data| - rest]
      ensures iov[0] == old(iov[0]) && iov[1].Some?
      decreases SLOTS - bufCount
    {
      hide Filling, Body, Capacity, Tight, Content, Fitting, Cap;
      BodyFits(size, iov, bufCount);
      FillingShape(size, iov, bufCount);
      FittingStep(size, contentLength, 0, |data|);
      if bufCount + 1 >= SLOTS {
        assert data[..0] == [];
        return |data|;
      }
      ghost var body, used := Body(iov, bufCount), contentLength;
      var len := FillSlot(data);
      BodyFits(size, iov, bufCount);
      FittingStep(size, used, len, |data|);
      rest := |data| - len;
      if rest > 0 {
        NextSlot();
        rest := NetworkSend(data[len..]);
        TakeOn(body, data, len, |data| - len - rest);
      } else {
        assert data[..len] == data;
        FittingStep(size, contentLength, 0, 0);
        TightWhenUsed(iov, bufCount);
      }
    }

    /** A full slot: the next one is used. */
    method NextSlot()
      requires BufferSize(size) && Filling(size, iov, bufCount) && iov[1].Some? && bufCount < SLOTS - 1
      requires iov[bufCount].Some? && |iov[bufCount].value| == Cap(size, bufCount)
      modifies this`iov, this`bufCount
      ensures bufCount == old(bufCount) + 1
      ensures Filling(size, iov, bufCount) && Body(iov, bufCount) == old(Body(iov, bufCount)) && iov[0] == old(iov[0])
    {
      hide Filling, Body, Cap;
      FillingShape(size, iov, bufCount);
      NextFilling(size, iov, bufCount);
      bufCount := bufCount + 1;
      iov := iov[bufCount := None];
    }

    /** Allocate the current slot if need be and fill it as far as the data goes. */
    method FillSlot(data: seq<Byte>) returns (len: nat)
      requires BufferSize(size) && Filling(size, iov, bufCount) && bufCount < SLOTS - 1
      requires contentLength == |Body(iov, bufCount)|
      modifies this`iov, this`bufCount, this`contentLength
      ensures Filling(size, iov, bufCount) && |iov| == SLOTS && iov[0] == old(iov[0])
      ensures 1 <= bufCount < SLOTS - 1 && old(bufCount) <= bufCount && iov[1].Some? && iov[bufCount].Some?
      ensures contentLength == old(contentLength) + len == |Body(iov, bufCount)|
      ensures len <= |data| && Body(iov, bufCount) == old(Body(iov, bufCount)) + data[..len]
      ensures len < |data| ==> |iov[bufCount].value| == Cap(size, bufCount)
      ensures len > 0 ==> iov[bufCount].value != []
    {
      hide Filling, Body;
      FillingShape(size, iov, bufCount);
      if iov[1].None? {
        StartFilling(size, iov, bufCount);
        iov := iov[1 := Some([])];
        bufCount := 1;
        contentLength := 0;
      }
      FillingShape(size, iov, bufCount);
      var room := Cap(size, bufCount) - |Data(iov[bufCount])|;
      len := if |data| > room then room else |data|;
      AppendFilling(size, iov, bufCount, data[..len]);
      iov := iov[bufCount := Some(Data(iov[bufCount]) + data[..len])];
      contentLength := contentLength + len;
    }

    /** network_add_chunk_metas: the size line goes in front of slot 1, where 8 bytes were kept
        free, and the trailer behind the last slot or into a new one.  No slot overflows. */
    method AddChunkMetas()
      requires BufferSize(size) && Filling(size, iov, bufCount) && Tight(iov, bufCount) && headerSended in {1, 2}
      requires contentLength == |Body(iov, bufCount)| && (iov[1].Some? ==> Body(iov, bufCount) != [])
      modifies this`iov, this`bufCount, this`contentLength
      ensures |iov| == SLOTS && 1 <= bufCount < SLOTS && iov[0] == old(iov[0])
      ensures contentLength == |Flat(Datas(iov[1..bufCount + 1]))|
      ensures Datas(iov[1..bufCount + 1]) == SendOf(size, [], old(Body(iov, bufCount)), headerSended == 2)
      ensures SlotsFit(size, iov)
    {
      hide Flat, SendOf, Body;
      FillingShape(size, iov, bufCount);
      if iov[1].Some? {
        MetasAround();
      } else {
        var add := Tail(headerSended == 2);
        EmptyBody(size, iov, bufCount);
        TrailerOnly(size, iov, add, headerSended == 2);
        FlatTwo(add);
        iov := iov[1 := Some(add)];
        bufCount := 2;
        contentLength := contentLength + |add|;
      }
    }

    /** The case with a body. */
    method MetasAround()
      requires BufferSize(size) && Filling(size, iov, bufCount) && Tight(iov, bufCount) && headerSended in {1, 2}
      requires contentLength == |Body(iov, bufCount)| && iov[1].Some? && Body(iov, bufCount) != []
      modifies this`iov, this`bufCount, this`contentLength
      ensures |iov| == SLOTS && 1 <= bufCount < SLOTS && iov[0] == old(iov[0])
      ensures contentLength == |Flat(Datas(iov[1..bufCount + 1]))|
      ensures Datas(iov[1..bufCount + 1]) == SendOf(size, [], old(Body(iov, bufCount)), headerSended == 2)
      ensures SlotsFit(size, iov)
    {
      hide Flat, Datas, SendOf, Body, SizeLine, Filling, SlotsFit, Tail, Tight, Content, SlotsOf, WithLine, WithTrailer,
           Capacity;
      FillingShape(size, iov, bufCount);
      BodyFits(size, iov, bufCount);
      CapacityValue(size);
      var line := SizeLine(contentLength);
      SizeLineFits(contentLength);
      FillingFits(size, iov, bufCount, line);
      var add := CRLF + Tail(headerSended == 2);
      TailLength(headerSended == 2);
      DressedSlots(size, iov, bufCount, line, add);
      SendDressed(size, Body(iov, bufCount), headerSended == 2);
      SendLength(size, Body(iov, bufCount), headerSended == 2);
      iov := iov[1 := Some(line + Data(iov[1]))];
      PutTrailer(add);
      contentLength := contentLength + |add| + |line|;
    }

    /** The trailer behind the last slot, or in a new one when it does not fit. */
    method PutTrailer(add: seq<Byte>)
      requires |iov| == SLOTS && 1 <= bufCount < SLOTS && |add| <= size && SlotsFit(size, iov)
      requires bufCount == SLOTS - 1 ==> Data(iov[bufCount]) == []
      modifies this`iov, this`bufCount
      ensures |iov| == SLOTS && SlotsFit(size, iov) && 1 <= bufCount < SLOTS && iov[0] == old(iov[0])
      ensures if |old(Data(iov[bufCount]))| + |add| > size then
                bufCount == old(bufCount) + 1 && iov == old(iov)[bufCount := Some([] + add)]
              else
                bufCount == old(bufCount) && iov == old(iov)[bufCount := Some(old(Data(iov[bufCount])) + add)]
    {
      hide SlotsFit;
      if |Data(iov[bufCount])| + |add| > size {
        NewSlot(size, iov, bufCount + 1);
        bufCount := bufCount + 1;
        assert iov[bufCount := Some([])][bufCount := Some([] + add)] == iov[bufCount := Some([] + add)];
        iov := iov[bufCount := Some([])];
      }
      AppendFits(size, iov, bufCount, add);
      iov := iov[bufCount := Some(Data(iov[bufCount]) + add)];
    }

    /** network_flush: returns 1 when a write was started, 0 when there was nothing to write.
        The first flush must find something buffered. */
    method NetworkFlush() returns (started: int)
      requires Valid() && status == Process
      requires headerSended == 0 ==> Body(iov, bufCount) != []
      modifies this`iov, this`bufCount, this`contentLength, this`headerSended, this`status, this`parts
      ensures Valid() && nextOut.None?
      ensures Reached() == Flushed(old(Reached()))
      ensures started == if old(Body(iov, bufCount)) == [] then 0 else 1
      ensures started == 0 ==> status == Process && headerSended == old(headerSended) && parts == old(parts)
                               && iov == old(iov) && bufCount == old(bufCount)
      ensures started == 1 ==> status == Send && headerSended == (if old(headerSended) == 0 then 5 else 1)
                               && parts == old(parts) + [old(Body(iov, bufCount))]
      ensures Index() == old(Index()) && bufSended == 0
    {
      hide Body, Filling, Sending, Tight, SendAt;
      FillingShape(size, iov, bufCount);
      ghost var body := Body(iov, bufCount);
      NothingMore(size, parts + [body]);
      if headerSended == 0 {
        FirstSlotUsed(size, iov, bufCount);
        FirstFlush();
        started := 1;
      } else {
        if iov[1].None? || iov[1].value == [] {
          EmptyBody(size, iov, bufCount);
          return 0;
        }
        UsedBody(size, iov, bufCount);
        LaterFlush();
        started := 1;
      }
    }

    /** The branch for header_sended == 0: the header goes into slot 0. */
    method FirstFlush()
      requires Valid() && status == Process && headerSended == 0
      requires iov[1].Some? && Body(iov, bufCount) != []
      modifies this`iov, this`bufCount, this`contentLength, this`headerSended, this`status, this`parts
      ensures Valid() && nextOut.None? && status == Send && headerSended == 5
      ensures parts == old(parts) + [old(Body(iov, bufCount))]
    {
      hide Filling, Tight, Flat, SendOf, Body, SlotsFit, Datas;
      FillingShape(size, iov, bufCount);
      ghost var body := Body(iov, bufCount);
      status := Send;
      headerSended := 1;
      AddChunkMetas();
      headerSended := 5;
      WithHeader(iov, bufCount, header);
      HeaderSend(size, header, body);
      iov := iov[0 := Some(header)];
      contentLength := contentLength + |header|;
      bufCount := bufCount + 1;
      parts := parts + [body];
    }

    method LaterFlush()
      requires Valid() && status == Process && headerSended == 1
      requires iov[1].Some? && Body(iov, bufCount) != []
      modifies this`iov, this`bufCount, this`contentLength, this`status, this`parts
      ensures Valid() && nextOut.None? && status == Send
      ensures parts == old(parts) + [old(Body(iov, bufCount))]
    {
      hide Filling, Tight, Flat, SendOf, Body, SlotsFit, Datas;
      FillingShape(size, iov, bufCount);
      ghost var body := Body(iov, bufCount);
      SendLength(size, body, false);
      status := Send;
      AddChunkMetas();
      bufCount := bufCount + 1;
      parts := parts + [body];
    }

    /** The part shared by an echo and its continuation: buffer what fits, and when something is
        left over flush and keep the rest for the next round. */
    method Offer(data: seq<Byte>)
      requires Valid() && status == Process && data != []
      modifies this`iov, this`bufCount, this`contentLength, this`headerSended, this`status, this`parts, this`nextOut
      ensures Valid() && Reached() == Offered(Capacity(size), old(Reached()), data)
      ensures status != Ended && headerSended != 2 && (old(headerSended) == 1 ==> headerSended == 1)
      ensures |Data(nextOut)| == |data| - Fitting(size, old(contentLength), |data|)
      ensures status == Send <==> nextOut.Some?
      ensures if status == Send then |parts| == |old(parts)| + 1 else parts == old(parts)
      ensures bufSended == 0
    {
      hide Filling, Body, Content, Fitting, Tight, Sending;
      FillingShape(size, iov, bufCount);
      BodyFits(size, iov, bufCount);
      ghost var st := Reached();
      OfferStep(size, st, data);
      SomeFits(size, contentLength, |data|);
      var rest := NetworkSend(data);
      FillingShape(size, iov, bufCount);
      GrownBody();
      if rest > 0 {
        KeepRest(data[|data| - rest..]);
      } else {
        assert data[..|data|] == data;
      }
    }

    /** Flush the full buffers and keep what did not fit. */
    method KeepRest(next: seq<Byte>)
      requires Valid() && status == Process && next != [] && Body(iov, bufCount) != []
      modifies this`iov, this`bufCount, this`contentLength, this`headerSended, this`status, this`parts, this`nextOut
      ensures Valid() && nextOut == Some(next) && parts == old(parts) + [old(Body(iov, bufCount))]
      ensures status == Send && bufSended == 0 && headerSended != 2 && (old(headerSended) == 1 ==> headerSended == 1)
    {
      hide Filling, Body, Content, Tight, SendAt, Offered;
      FillingShape(size, iov, bufCount);
      var started := NetworkFlush();
      nextOut := Some(next);
    }

    /** After `network_send` took some of the data, slot 1 is in use. */
    lemma GrownBody()
      requires BufferSize(size) && Filling(size, iov, bufCount) && iov[1].Some?
      requires Body(iov, bufCount) != []
      ensures iov[1].value != []
    {
      FirstSlotUsed(size, iov, bufCount);
    }

    /** Echo: an empty string is refused by network_send and changes nothing. */
    method Echo(data: seq<Byte>)
      requires Valid() && status == Process
      modifies this`iov, this`bufCount, this`contentLength, this`headerSended, this`status, this`parts, this`nextOut
      ensures Valid() && Reached() == Offered(Capacity(size), old(Reached()), data)
      ensures status != Ended && headerSended != 2 && (old(headerSended) == 1 ==> headerSended == 1)
      ensures Index() == old(Index()) && bufSended == 0
    {
      hide Filling, Body, Tight, Sending, Offered;
      if |data| < 1 {
        OfferNothing(size, iov, bufCount, parts);
        return;
      }
      Offer(data);
    }

    /** network_be_end once headers are out: the trailer is always sent. */
    method BeEnd()
      requires Valid() && status == Process && headerSended == 1
      modifies this`iov, this`bufCount, this`contentLength, this`headerSended, this`status, this`rest
      ensures Valid() && status == Send && headerSended == 2 && nextOut.None?
      ensures Reached() == old(Reached())
    {
      hide Filling, Tight, Flat, SendOf, Body, SlotsFit, Datas;
      FillingShape(size, iov, bufCount);
      ghost var body := Body(iov, bufCount);
      if iov[1].Some? { UsedBody(size, iov, bufCount); }
      SendLength(size, body, true);
      status := Send;
      headerSended := 2;
      AddChunkMetas();
      bufCount := bufCount + 1;
      rest := body;
    }

    /** The gather loop of the write callback, with the offset `k` it carries along. */
    method Gather(k0: int) returns (vec: seq<seq<Byte>>, k: int)
      requires First() <= bufCount <= |iov|
      ensures (vec, k) == Pass(Bufs(), bufSended, 0, k0)
    {
      vec, k := [], k0;
      var sum := 0;
      var j := First();
      assert Datas(iov[j..bufCount]) == Bufs();
      assert vec + Pass(Bufs(), bufSended, 0, k0).0 == Pass(Bufs(), bufSended, 0, k0).0;
      while j < bufCount
        invariant First() <= j <= bufCount && sum >= 0
        invariant var (v, k') := Pass(Datas(iov[j..bufCount]), bufSended, sum, k);
                  Pass(Bufs(), bufSended, 0, k0) == (vec + v, k')
      {
        ghost var left := Datas(iov[j..bufCount]);
        assert left[0] == Data(iov[j]) && left[1..] == Datas(iov[j + 1..bufCount]);
        sum := sum + |Data(iov[j])|;
        if sum > bufSended {
          if k == 0 && bufSended > 0 {
            k := bufSended - (sum - |Data(iov[j])|);
          }
          assert forall v: seq<seq<Byte>> :: vec + ([left[0]] + v) == (vec + [left[0]]) + v;
          vec := vec + [Data(iov[j])];
        }
        j := j + 1;
      }
      assert vec + [] == vec;
    }

    /** One call of the write callback.  `counts` is what the kernel takes of each vector offered;
        when they run out the socket would block. */
    method WriteLoop(counts: seq<nat>) returns (complete: bool)
      requires Sending()
      modifies this`wire, this`bufSended
      ensures var (out, sent') := WriteCall(resets, Bufs(), old(bufSended), 0, counts);
              wire == old(wire) + out && bufSended == sent'
      ensures complete == (bufSended >= contentLength)
    {
      hide Flat, Pass, Trim, Round, WriteCall, Accepted, SendAt;
      var n, k, i := 0, 0, 0;
      ghost var bufs, out, from := Bufs(), [], bufSended;
      assert counts[0..] == counts;
      assert out + WriteCall(resets, bufs, from, 0, counts).0 == WriteCall(resets, bufs, from, 0, counts).0;
      while bufSended < contentLength && n >= 0
        invariant 0 <= i <= |counts| && (n < 0 ==> i == |counts|)
        invariant bufs == Bufs() && n >= -1 && old(wire) + out == wire
        invariant (n > 0 ==> bufSended < contentLength) && k <= 0
        invariant var (more, sent') := WriteCall(resets, bufs, bufSended + (if n > 0 then n else 0), k, counts[i..]);
                  WriteCall(resets, bufs, from, 0, counts) == (out + more, sent')
        decreases contentLength - bufSended, |counts| - i, n
      {
        if n > 0 {
          bufSended := bufSended + n;
          n := 0;
        }
        if bufSended >= contentLength {
          break;
        }
        var vec;
        ghost var k0 := k;
        vec, k := Gather(k);
        var offer := Flat(Trim(vec, k));
        RoundIsPass(bufs, bufSended, k0);
        if k > 0 || resets {
          k := 0;
        }
        if i < |counts| {
          n := Accepted(counts[i], |offer|);
          WriteStep(resets, bufs, bufSended, k0, counts, i, out);
          wire := wire + offer[..n];
          out := out + offer[..n];
          i := i + 1;
        } else {
          WriteStops(resets, bufs, bufSended, k0, counts[i..], out);
          WriteStops(resets, bufs, bufSended, k, counts[i..], out);
          n := -1;
        }
      }
      WriteStops(resets, bufs, bufSended, k, counts[i..], out);
      complete := bufSended >= contentLength;
    }

    /** network_be_write: write what can be written; when the position has reached the end, end
        the response, let the script go on, or go on with what an echo left over. */
    method BeWrite(counts: seq<nat>)
      requires Valid() && status == Send
      modifies this
      ensures Valid() && Reached() == old(Reached())
      ensures var (out, sent') := WriteCall(resets, old(Bufs()), old(bufSended), 0, counts);
              && wire == old(wire) + out
              && if sent' < |Flat(old(Bufs()))| then
                   && status == Send && bufSended == sent' && headerSended == old(headerSended)
                   && Index() == old(Index()) && Bufs() == old(Bufs()) && Data(nextOut) == old(Data(nextOut))
                   && (counts != [] ==> Unsent() < old(Unsent())) && Unsent() <= old(Unsent())
                 else
                   && Index() == old(Index()) + 1
                   && (status == Ended <==> old(headerSended) == 2)
                   && (status == Send ==> bufSended == 0 && |Data(nextOut)| < |old(Data(nextOut))|)
                   && headerSended == (if old(headerSended) == 2 then 2 else 1)
    {
      hide Flat, WriteCall, Filling, Body, Datas, Offered, SendAt, Tight;
      ghost var bufs, sent := Bufs(), bufSended;
      CallAdvances(resets, bufs, sent, 0, counts);
      var complete := WriteLoop(counts);
      if complete {
        Completed();
      }
    }

    /** What the write callback does when the position has reached the end. */
    method Completed()
      requires BufferSize(size) && 0 < |header| < size && status == Send
      requires headerSended in {1, 2, 5} && |iov| == SLOTS && parts != []
      requires nextOut.Some? ==> nextOut.value != [] && headerSended != 2
      modifies this
      ensures Valid() && wire == old(wire) && Index() == old(Index()) + 1
      ensures if old(headerSended) == 2 then status == Ended && headerSended == 2
              else (status == Process || status == Send) && headerSended == 1
      ensures Reached() == if old(headerSended) == 2 then Stage(old(parts), old(rest))
                           else Offered(Capacity(size), Stage(old(parts), []), old(Data(nextOut)))
      ensures status == Send ==> bufSended == 0 && |Data(nextOut)| < |old(Data(nextOut))|
    {
      hide Filling, Body, Cleared, Offered, Tight, Sending;
      if headerSended == 5 {
        headerSended := 1;
      }
      status := Process;
      if headerSended != 1 {
        status := Ended;
      } else {
        iov := Cleared(iov);
        contentLength, bufCount, bufSended := 0, 1, 0;
        ClearedFilling(size, iov);
        if nextOut.Some? {
          SendThenSend();
        } else {
          OfferNothing(size, iov, bufCount, parts);
        }
      }
    }

    /** send_then_send: the rest of an echo is offered again. */
    method SendThenSend()
      requires nextOut.Some? && nextOut.value != []
      requires BufferSize(size) && 0 < |header| < size && parts != []
      requires Filling(size, iov, bufCount) && Tight(iov, bufCount) && Body(iov, bufCount) == [] && iov[1].None?
      requires status == Process && headerSended == 1 && contentLength == 0 && bufSended == 0
      modifies this`iov, this`bufCount, this`contentLength, this`headerSended, this`status, this`parts, this`nextOut
      ensures Valid() && Reached() == Offered(Capacity(size), Stage(old(parts), []), old(nextOut.value))
      ensures status != Ended && headerSended == 1 && Index() == |old(parts)|
      ensures status == Send ==> |Data(nextOut)| < |old(Data(nextOut))|
      ensures status == Send ==> bufSended == 0
    {
      hide Filling, Body, Fitting, Offered, Tight, Sending;
      var buf := nextOut.value;
      nextOut := None;
      SomeFits(size, 0, |buf|);
      Offer(buf);
    }
  }

  /** How many bytes fit, when the first of them have been taken. */
  lemma FittingStep(size: nat, used: nat, len: nat, n: nat)
    requires len <= n && used + len <= Capacity(size)
    ensures Fitting(size, used, n) == len + Fitting(size, used + len, n - len)
    ensures used == Capacity(size) || n == 0 ==> Fitting(size, used, n) == 0
  {
  }

  lemma TightWhenUsed(iov: seq<Buffer>, count: nat)
    requires count < |iov| && Data(iov[count]) != []
    ensures Tight(iov, count)
  {
  }

  lemma SizeLineFits(n: nat)
    requires n < 0x100_0000
    ensures |SizeLine(n)| <= 8
  {
    HexLength(n);
  }

  lemma SendDressed(size: nat, body: seq<Byte>, last: bool)
    requires body != []
    ensures SendOf(size, [], body, last)
            == WithTrailer(size, WithLine(SlotsOf(size, body, 1), SizeLine(|body|)), CRLF + Tail(last))
  {
  }

  /** The length of a send. */
  lemma SendLength(size: nat, body: seq<Byte>, last: bool)
    ensures body != [] ==> |Flat(SendOf(size, [], body, last))|
                           == |SizeLine(|body|)| + |body| + |CRLF + Tail(last)|
    ensures body == [] ==> |Flat(SendOf(size, [], body, last))| == |Tail(last)|
    ensures (body != [] || last) ==> |Flat(SendOf(size, [], body, last))| > 0
  {
    FlatSend(size, [], body, last);
    FlatNone();
  }

  /** The first send is that of its piece with the header in front. */
  lemma HeaderSend(size: nat, header: seq<Byte>, body: seq<Byte>)
    requires header != []
    ensures SendOf(size, [header], body, false) == [header] + SendOf(size, [], body, false)
    ensures |Flat([header] + SendOf(size, [], body, false))| == |header| + |Flat(SendOf(size, [], body, false))|
  {
    hide Flat;
    FlatOne(header);
    FlatAppend([header], SendOf(size, [], body, false));
  }

  lemma NothingMore(size: nat, parts: seq<seq<Byte>>)
    ensures Offered(Capacity(size), Stage(parts, []), []) == Stage(parts, [])
  {
  }

  lemma OfferNothing(size: nat, iov: seq<Buffer>, count: nat, parts: seq<seq<Byte>>)
    requires Filling(size, iov, count)
    ensures Offered(Capacity(size), Stage(parts, Body(iov, count)), []) == Stage(parts, Body(iov, count))
  {
    hide Body, Filling;
    FillingShape(size, iov, count);
    BodyFits(size, iov, count);
    assert Body(iov, count) + [] == Body(iov, count);
  }

  /** One step of the plan: all the data fits, or the buffers fill up and the rest is offered. */
  lemma OfferStep(size: nat, st: Stage, data: seq<Byte>)
    requires BufferSize(size) && |st.body| <= Capacity(size)
    ensures var n := Fitting(size, |st.body|, |data|);
            Offered(Capacity(size), st, data) ==
            if n == |data| then Stage(st.parts, st.body + data)
            else Offered(Capacity(size), Stage(st.parts + [st.body + data[..n]], []), data[n..])
  {
    CapacityValue(size);
  }

  /** Offering data to empty buffers takes some of it, and full buffers are not empty. */
  lemma SomeFits(size: nat, used: nat, n: nat)
    requires BufferSize(size) && n > 0
    ensures used + Fitting(size, used, n) > 0
  {
    CapacityValue(size);
  }

  lemma TrailerOnly(size: nat, iov: seq<Buffer>, add: seq<Byte>, last: bool)
    requires |iov| == SLOTS && iov[2].None? && add == Tail(last)
    ensures Datas(iov[1 := Some(add)][1..3]) == SendOf(size, [], [], last) == [add, []]
  {
    assert Datas(iov[1 := Some(add)][1..3]) == [add, []];
    assert [] + [add, []] == [add, []];
  }

  /** All body slots freed. */
  function Cleared(iov: seq<Buffer>): (r: seq<Buffer>)
    requires |iov| == SLOTS
    ensures |r| == SLOTS && forall i :: 1 <= i < SLOTS ==> r[i].None?
  {
    [iov[0]] + seq(SLOTS - 1, _ => None)
  }

  lemma ClearedFilling(size: nat, iov: seq<Buffer>)
    requires |iov| == SLOTS && forall i :: 1 <= i < SLOTS ==> iov[i].None?
    ensures Filling(size, iov, 1) && Tight(iov, 1) && Body(iov, 1) == []
  {
    EmptyBody(size, iov, 1);
  }

  lemma NewSlot(size: nat, iov: seq<Buffer>, count: nat)
    requires 2 <= count < |iov|
    ensures SlotsFit(size, iov) ==> SlotsFit(size, iov[count := Some([])])
  {
  }

  /** The size line fits the bytes kept free, and the last body slot before the trailer slot is
      at most 236. */
  lemma FillingFits(size: nat, iov: seq<Buffer>, count: nat, line: seq<Byte>)
    requires BufferSize(size) && Filling(size, iov, count) && iov[1].Some? && |line| <= 8
    ensures 1 <= count < SLOTS
    ensures SlotsFit(size, iov[1 := Some(line + Data(iov[1]))])
    ensures count == SLOTS - 1 ==> Data(iov[count]) == []
  {
    forall i | 1 <= i < SLOTS ensures |Data(iov[i])| <= Cap(size, i) {
      if i > count { assert iov[i].None?; }
    }
  }

  lemma AppendFits(size: nat, iov: seq<Buffer>, count: nat, add: seq<Byte>)
    requires 1 <= count < |iov| && SlotsFit(size, iov) && |Data(iov[count])| + |add| <= size
    ensures SlotsFit(size, iov[count := Some(Data(iov[count]) + add)])
  {
  }

  lemma TailLength(last: bool)
    ensures |Tail(last)| <= 5
  {
  }

  lemma WithHeader(iov: seq<Buffer>, count: nat, header: seq<Byte>)
    requires 1 <= count + 1 <= |iov|
    ensures Datas(iov[0 := Some(header)][0..count + 1]) == [header] + Datas(iov[1..count + 1])
  {
  }

  lemma TakeOn(body: seq<Byte>, data: seq<Byte>, len: nat, m: nat)
    requires len + m <= |data|
    ensures body + data[..len] + data[len..][..m] == body + data[..len + m]
  {
  }

  lemma RoundIsPass(bufs: seq<seq<Byte>>, sent: nat, k: int)
    ensures var (v, k') := Pass(bufs, sent, 0, k);
            Round(bufs, sent, k) == (Flat(Trim(v, k')), if k' > 0 then 0 else k')
  {
  }

  lemma WriteStep(resets: bool, bufs: seq<seq<Byte>>, sent: nat, k: int, counts: seq<nat>, i: nat, out: seq<Byte>)
    requires sent < |Flat(bufs)| && i < |counts| && k <= 0
    ensures var (offer, k') := Round(bufs, sent, k);
            var n := Accepted(counts[i], |offer|);
            var (more, sent') := WriteCall(resets, bufs, sent + n, if resets then 0 else k', counts[i + 1..]);
            && 0 < n <= |offer| && k' <= 0
            && WriteCall(resets, bufs, sent, k, counts[i..]).1 == sent'
            && out + WriteCall(resets, bufs, sent, k, counts[i..]).0 == out + offer[..n] + more
  {
    hide Round;
    AnyRound(bufs, sent, k);
    assert counts[i..][1..] == counts[i + 1..];
    var (offer, k') := Round(bufs, sent, k);
    var n := Accepted(counts[i], |offer|);
    var more := WriteCall(resets, bufs, sent + n, if resets then 0 else k', counts[i + 1..]).0;
    assert out + (offer[..n] + more) == out + offer[..n] + more;
  }

  lemma WriteStops(resets: bool, bufs: seq<seq<Byte>>, sent: nat, k: int, counts: seq<nat>, out: seq<Byte>)
    requires sent >= |Flat(bufs)| || counts == []
    ensures WriteCall(resets, bufs, sent, k, counts) == ([], sent) && out + [] == out
  {
  }

  // ------------------------------------------------------------------- slots as a send

  /** The slots from k to m, all but the last full, are what the data from there on is cut into. */
  lemma {:induction false} SlotsAre(size: nat, iov: seq<Buffer>, k: nat, m: nat)
    requires size > 8 && 1 <= k <= m < |iov|
    requires forall i :: k <= i < m ==> |Data(iov[i])| == Cap(size, i)
    requires |Data(iov[m])| <= Cap(size, m) && (m > k ==> Data(iov[m]) != [])
    ensures SlotsOf(size, Content(iov, k, m + 1), k) == Datas(iov[k..m + 1])
    decreases m - k
  {
    hide Content, Flat, SlotsOf, Datas;
    ContentOne(iov, k);
    OneSlot(size, iov, k);
    if k < m {
      SlotsAre(size, iov, k + 1, m);
      ContentSplit(iov, k, k + 1, m + 1);
      ContentSplit(iov, k + 1, m, m + 1);
      ContentOne(iov, m);
      FullSlot(size, Data(iov[k]), Content(iov, k + 1, m + 1), k);
      SlotsStep(iov, k, m);
    }
  }

  lemma OneSlot(size: nat, iov: seq<Buffer>, k: nat)
    requires k < |iov| && |Data(iov[k])| <= Cap(size, k)
    ensures SlotsOf(size, Data(iov[k]), k) == [Data(iov[k])] == Datas(iov[k..k + 1])
  {
  }

  lemma FullSlot(size: nat, a: seq<Byte>, rest: seq<Byte>, k: nat)
    requires |a| == Cap(size, k) > 0 && rest != []
    ensures SlotsOf(size, a + rest, k) == [a] + SlotsOf(size, rest, k + 1)
  {
    assert (a + rest)[..|a|] == a && (a + rest)[|a|..] == rest;
  }

  lemma SlotsStep(iov: seq<Buffer>, k: nat, m: nat)
    requires k < m < |iov|
    ensures Datas(iov[k..m + 1]) == [Data(iov[k])] + Datas(iov[k + 1..m + 1])
  {
  }

  /** The slots of a body, slot 237 aside, which stays empty. */
  lemma BodySlots(size: nat, iov: seq<Buffer>, count: nat)
    requires BufferSize(size) && Filling(size, iov, count) && Tight(iov, count) && iov[1].Some?
    ensures 1 <= count < SLOTS
    ensures count < SLOTS - 1 ==> SlotsOf(size, Body(iov, count), 1) == Datas(iov[1..count + 1])
    ensures count == SLOTS - 1 ==>
              && Data(iov[count]) == [] && |Data(iov[count - 1])| == size
              && SlotsOf(size, Body(iov, count), 1) == Datas(iov[1..count])
  {
    hide Content, SlotsOf, Datas;
    if count < SLOTS - 1 {
      SlotsAre(size, iov, 1, count);
    } else {
      SlotsAre(size, iov, 1, count - 1);
      ContentSplit(iov, 1, count, count + 1);
      ContentOne(iov, count);
      assert Content(iov, 1, count) + [] == Content(iov, 1, count);
    }
  }

  /** What the size line and the trailer make of the slots. */
  lemma DressedSlots(size: nat, iov: seq<Buffer>, count: nat, line: seq<Byte>, add: seq<Byte>)
    requires BufferSize(size) && Filling(size, iov, count) && Tight(iov, count) && iov[1].Some? && 0 < |add| <= size
    requires 1 <= count < SLOTS == |iov|
    ensures var bufs := WithTrailer(size, WithLine(SlotsOf(size, Body(iov, count), 1), line), add);
            var iov1 := iov[1 := Some(line + Data(iov[1]))];
            if |Data(iov1[count])| + |add| > size then
              count + 1 < SLOTS && Datas(iov1[count + 1 := Some([] + add)][1..count + 2]) == bufs
            else Datas(iov1[count := Some(Data(iov1[count]) + add)][1..count + 1]) == bufs
  {
    hide SlotsOf, Filling, Tight, Body;
    BodySlots(size, iov, count);
    var iov1 := iov[1 := Some(line + Data(iov[1]))];
    var slots := SlotsOf(size, Body(iov, count), 1);
    if count == SLOTS - 1 {
      Lined(iov, count - 1, line);
      assert iov1[count - 1] == iov[count - 1];
      Appended(iov1, count, add);
      var lined := Datas(iov1[1..count]);
      assert lined == WithLine(slots, line) && lined[|lined| - 1] == Data(iov1[count - 1]);
    } else {
      Lined(iov, count, line);
      if |Data(iov1[count])| + |add| > size {
        var iov2 := iov1[count + 1 := Some([])];
        Appended(iov2, count + 1, add);
        assert iov2[count + 1 := Some([] + add)] == iov1[count + 1 := Some([] + add)];
        assert iov2[1..count + 1] == iov1[1..count + 1];
      } else {
        Extended(iov1, count, add);
      }
    }
  }

  lemma Lined(iov: seq<Buffer>, m: nat, line: seq<Byte>)
    requires 1 <= m < |iov|
    ensures Datas(iov[1 := Some(line + Data(iov[1]))][1..m + 1]) == WithLine(Datas(iov[1..m + 1]), line)
  {
  }

  /** A slot that was empty, after the others. */
  lemma Appended(iov: seq<Buffer>, m: nat, add: seq<Byte>)
    requires 1 <= m < |iov| && Data(iov[m]) == []
    ensures Datas(iov[m := Some(Data(iov[m]) + add)][1..m + 1]) == Datas(iov[1..m]) + [add]
  {
    assert [] + add == add;
    var iov' := iov[m := Some(Data(iov[m]) + add)];
    assert iov'[1..m + 1] == iov[1..m] + [Some(add)];
  }

  lemma Extended(iov: seq<Buffer>, m: nat, add: seq<Byte>)
    requires 1 <= m < |iov|
    ensures var d := Datas(iov[1..m + 1]);
            Datas(iov[m := Some(Data(iov[m]) + add)][1..m + 1]) == d[..|d| - 1] + [d[|d| - 1] + add]
  {
  }
}
