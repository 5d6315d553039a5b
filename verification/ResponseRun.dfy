/** A whole request: a script echoes and flushes while the socket takes bytes as it pleases. */
module ResponseRun {
  import opened Bytes
  import opened ChunkedBody
  import opened PartialWrite
  import opened ResponseBuffers
  import opened Transmission
  import opened ResponsePlan
  import opened Response

  /** The socket never stops taking bytes for good. */
  ghost predicate Fair(socket: Socket) {
    forall i: nat :: TakesAfter(socket, i)
  }

  ghost predicate TakesAfter(socket: Socket, i: nat) {
    exists j: nat :: i <= j && socket(j) != []
  }

  ghost function NextTaking(socket: Socket, i: nat): (j: nat)
    requires Fair(socket)
    ensures i <= j && socket(j) != []
  {
    assert TakesAfter(socket, i);
    var j: nat :| i <= j && socket(j) != [];
    j
  }

  /** The response is on its way to the stage `st` in which its script ends. */
  ghost predicate Leads(epd: Epd, st: Stage)
    requires epd.Valid()
    reads epd
  {
    && epd.Reached().parts <= st.parts
    && (epd.headerSended == 2 ==> epd.Reached() == st)
  }

  /** The response is exactly where the calls made so far take the sends of its script. */
  ghost predicate Tracks(epd: Epd, st: Stage, socket: Socket, calls: nat)
    reads epd
  {
    AfterCalls(epd.resets, Sends(epd.size, epd.header, st), socket, calls)
    == Progress(epd.Index(), if epd.status == Send then epd.bufSended else 0, epd.wire)
  }

  lemma OfferedGrows(cap: nat, st: Stage, data: seq<Byte>)
    ensures st.parts <= Offered(cap, st, data).parts
    decreases |st.body| + |data|
  {
  }

  /** The buffers being sent are those of the send that is due. */
  lemma SendIsDue(epd: Epd, st: Stage)
    requires epd.Valid() && epd.status == Send && Leads(epd, st)
    ensures var sends := Sends(epd.size, epd.header, st);
            epd.Index() < |sends| && sends[epd.Index()] == epd.Bufs()
  {
    hide Offered, SendOf, Sends;
    SendsAre(epd.size, epd.header, st);
    if epd.headerSended != 2 {
      OfferedGrows(Capacity(epd.size), Stage(epd.parts, []), Data(epd.nextOut));
    }
  }

  /** One more call. */
  lemma CallTracks(resets: bool, sends: seq<seq<seq<Byte>>>, socket: Socket, calls: nat, send: nat, sent: nat, wire: seq<Byte>)
    requires AfterCalls(resets, sends, socket, calls) == Progress(send, sent, wire) && send < |sends|
    ensures var (out, sent') := WriteCall(resets, sends[send], sent, 0, socket(calls));
            AfterCalls(resets, sends, socket, calls + 1) ==
            if sent' >= |Flat(sends[send])| then Progress(send + 1, 0, wire + out) else Progress(send, sent', wire + out)
  {
    hide AfterCalls, HarmlessCalls, WriteCall, Flat;
    OneMoreCall(resets, sends, socket, calls);
  }

  /** Let the write callback run until nothing is being sent.  It always gets there: each call
      that writes moves the position of the current send or leaves less of an echo to carry over. */
  method Drain(epd: Epd, socket: Socket, calls0: nat, ghost st: Stage) returns (calls: nat)
    requires epd.Valid() && Fair(socket) && Leads(epd, st) && Tracks(epd, st, socket, calls0)
    modifies epd
    ensures epd.Valid() && epd.Reached() == old(epd.Reached()) && Tracks(epd, st, socket, calls)
    ensures if old(epd.headerSended) == 2 then epd.status == Ended && epd.headerSended == 2
            else epd.status == Process && epd.headerSended != 2
    ensures old(epd.headerSended) != 0 ==> epd.headerSended != 0
  {
    hide Flat, WriteCall, AfterCalls, Sends, Offered, Capacity, SendAt;
    calls := calls0;
    ghost var taking: nat := NextTaking(socket, calls);
    while epd.status == Send
      invariant epd.Valid() && epd.Reached() == old(epd.Reached()) && Tracks(epd, st, socket, calls)
      invariant old(epd.headerSended) == 2 <==> epd.headerSended == 2
      invariant epd.status == Ended <==> epd.headerSended == 2 && epd.status != Send
      invariant old(epd.headerSended) != 0 ==> epd.headerSended != 0
      invariant calls <= taking && socket(taking) != []
      decreases epd.status == Send, |Data(epd.nextOut)|, epd.Unsent(), taking - calls
    {
      SendIsDue(epd, st);
      CallTracks(epd.resets, Sends(epd.size, epd.header, st), socket, calls, epd.Index(), epd.bufSended, epd.wire);
      epd.BeWrite(socket(calls));
      calls := calls + 1;
      if taking < calls {
        taking := NextTaking(socket, calls);
      }
    }
  }

  /** Serve a request, with the write loop as it is or with its offset cleared on every round.
      It always finishes.  The wire is what the calls of the write callback make of the sends of the
      script; it is exactly what the sends hold if and only if every call was harmless, and that
      decodes to exactly what the script echoed.  Clearing the offset is enough, or a socket that
      takes one vector at most in each call, or calls that are all faithful. */
  method Serve(size: nat, header: seq<Byte>, script: seq<Action>, socket: Socket, resets: bool)
      returns (wire: seq<Byte>, calls: nat)
    requires BufferSize(size) && 0 < |header| < size && IsChunked(size, script) && Fair(socket)
    ensures var sends := Sends(size, header, Plan(Capacity(size), script));
            && AfterCalls(resets, sends, socket, calls) == Progress(|sends|, 0, wire)
            && (wire == Stream(sends) <==> HarmlessCalls(resets, sends, socket, calls))
            && header <= Stream(sends) && Decode(Stream(sends)[|header|..]) == Some(Echoed(script))
    ensures resets || OneWriteEach(socket)
            || FaithfulCalls(Sends(size, header, Plan(Capacity(size), script)), socket, calls) ==>
              header <= wire && Decode(wire[|header|..]) == Some(Echoed(script))
  {
    hide AfterCalls, Sends, Stream, HarmlessCalls, FaithfulCalls, Plan, Echoed, Decode, Capacity, IsChunked, Epd.Sending;
    ghost var st := Plan(Capacity(size), script);
    ghost var sends := Sends(size, header, st);
    var epd := new Epd(size, header, resets);
    calls := RunScript(epd, script, socket);
    epd.BeEnd();
    calls := Drain(epd, socket, calls, st);
    wire := epd.wire;
    SendsAre(size, header, st);
    assert AfterCalls(resets, sends, socket, calls) == Progress(|sends|, 0, wire);
    Judge(size, header, script, socket, resets, calls);
  }

  /** What a finished transmission of a script's sends amounts to. */
  lemma Judge(size: nat, header: seq<Byte>, script: seq<Action>, socket: Socket, resets: bool, calls: nat)
    requires BufferSize(size) && IsChunked(size, script)
    requires var sends := Sends(size, header, Plan(Capacity(size), script));
             AfterCalls(resets, sends, socket, calls).send == |sends|
    ensures var sends := Sends(size, header, Plan(Capacity(size), script));
            var wire := AfterCalls(resets, sends, socket, calls).wire;
            && (wire == Stream(sends) <==> HarmlessCalls(resets, sends, socket, calls))
            && (resets || OneWriteEach(socket) || FaithfulCalls(sends, socket, calls) ==> wire == Stream(sends))
            && header <= Stream(sends) && Decode(Stream(sends)[|header|..]) == Some(Echoed(script))
  {
    hide AfterCalls, Sends, Stream, HarmlessCalls, FaithfulCalls, Plan, Echoed, Decode, Capacity, IsChunked, NoneVoid, Text;
    var st := Plan(Capacity(size), script);
    var sends := Sends(size, header, st);
    CapacityValue(size);
    PlanText(Capacity(size), script);
    SendsNotVoid(size, header, st);
    FinishedExactly(resets, sends, socket, calls);
    if resets || OneWriteEach(socket) {
      ResetOrOneWrite(resets, sends, socket, calls);
    } else if FaithfulCalls(sends, socket, calls) {
      FaithfulCallsHarmless(sends, socket, calls);
    }
    StreamDecodes(size, header, script);
  }

  /** Every action of the script in turn, each once the previous output is written. */
  method RunScript(epd: Epd, script: seq<Action>, socket: Socket) returns (calls: nat)
    requires epd.Valid() && IsChunked(epd.size, script) && Fair(socket)
    requires epd.status == Process && epd.headerSended == 0 && epd.wire == [] && epd.Reached() == Stage([], [])
    modifies epd
    ensures epd.Valid() && epd.status == Process && epd.headerSended == 1
    ensures epd.Reached() == Plan(Capacity(epd.size), script)
    ensures Tracks(epd, Plan(Capacity(epd.size), script), socket, calls)
  {
    hide Sends, Plan, Echoed, Capacity, Epd.Sending, Filling, Tight, Body, Offered, HasFlush;
    ghost var cap := Capacity(epd.size);
    ghost var st := Plan(cap, script);
    calls := 0;
    CapacityValue(epd.size);
    NothingYet(cap, script, epd.size, epd.header, epd.resets, socket);
    for i := 0 to |script|
      invariant epd.Valid() && Tracks(epd, st, socket, calls)
      invariant epd.Reached() == Plan(cap, script[..i])
      invariant epd.status != Ended && epd.headerSended != 2
    {
      PlanGrows(cap, script, i);
      calls := Drain(epd, socket, calls, st);
      Act(epd, script, i);
    }
    assert script[..|script|] == script;
    calls := Drain(epd, socket, calls, st);
    ChunkedHasParts(epd.size, script);
  }

  lemma NothingYet(cap: nat, script: seq<Action>, size: nat, header: seq<Byte>, resets: bool, socket: Socket)
    ensures Plan(cap, script[..0]) == Stage([], [])
    ensures AfterCalls(resets, Sends(size, header, Plan(cap, script)), socket, 0) == Progress(0, 0, [])
  {
  }

  /** One action of the script, while nothing is being sent. */
  method Act(epd: Epd, script: seq<Action>, i: nat)
    requires i < |script| && FlushesSomething(script) && Capacity(epd.size) > 0
    requires epd.Valid() && epd.status == Process
    requires epd.Reached() == Plan(Capacity(epd.size), script[..i])
    modifies epd
    ensures epd.Valid() && epd.status != Ended && epd.headerSended != 2
    ensures epd.Reached() == Plan(Capacity(epd.size), script[..i + 1])
    ensures epd.wire == old(epd.wire) && epd.Index() == old(epd.Index())
    ensures epd.status == Send ==> epd.bufSended == 0
  {
    hide Plan, Echoed, Capacity, Epd.Sending, Filling, Tight, Body, Offered, FlushesSomething, Flushed;
    ActionStep(Capacity(epd.size), script, i);
    PlanText(Capacity(epd.size), script[..i]);
    if script[i].EchoAction? {
      epd.Echo(script[i].data);
    } else {
      var started := epd.NetworkFlush();
    }
  }

  /** What one more action of a script means. */
  lemma ActionStep(cap: nat, script: seq<Action>, i: nat)
    requires i < |script| && FlushesSomething(script)
    ensures Plan(cap, script[..i + 1]) == Acted(cap, Plan(cap, script[..i]), script[i])
    ensures script[i].FlushAction? ==> Echoed(script[..i]) != []
    ensures Concat([]) == []
  {
    hide Offered;
    assert script[..i + 1][..i] == script[..i];
  }
}
