/**
 What a response sends, told from the script alone: how echoes and flushes cut the output into
 pieces, and which buffers each piece fills.
 */
module ResponsePlan {
  import opened Bytes
  import opened ChunkedBody
  import opened PartialWrite
  import opened ResponseBuffers
  import opened Transmission

  datatype Action = EchoAction(data: seq<Byte>) | FlushAction

  /** Everything a script echoes. */
  function Echoed(script: seq<Action>): seq<Byte> {
    if script == [] then []
    else
      var last := script[|script| - 1];
      Echoed(script[..|script| - 1]) + if last.EchoAction? then last.data else []
  }

  // ------------------------------------------------------------------- pieces

  /** The pieces flushed so far, and what is collected for the next. */
  datatype Stage = Stage(parts: seq<seq<Byte>>, body: seq<Byte>)

  function Flushed(st: Stage): Stage {
    if st.body == [] then st else Stage(st.parts + [st.body], [])
  }

  /** More data: each time the buffers are full, what they hold is a piece. */
  function Offered(cap: nat, st: Stage, data: seq<Byte>): Stage
    decreases |st.body| + |data|
  {
    if |st.body| + |data| <= cap || cap == 0 then Stage(st.parts, st.body + data)
    else
      var m := if |st.body| <= cap then cap - |st.body| else 0;
      Offered(cap, Stage(st.parts + [st.body + data[..m]], []), data[m..])
  }

  function Acted(cap: nat, st: Stage, a: Action): Stage {
    match a
    case EchoAction(data) => Offered(cap, st, data)
    case FlushAction => Flushed(st)
  }

  function Plan(cap: nat, script: seq<Action>): Stage {
    if script == [] then Stage([], [])
    else Acted(cap, Plan(cap, script[..|script| - 1]), script[|script| - 1])
  }

  /** All pieces, the end of the request flushing what is left. */
  function Pieces(st: Stage): seq<seq<Byte>> {
    Flushed(st).parts
  }

  /** What the stage accounts for. */
  function Text(st: Stage): seq<Byte> {
    Concat(st.parts) + st.body
  }

  ghost predicate NoneEmpty(parts: seq<seq<Byte>>) {
    forall i :: 0 <= i < |parts| ==> parts[i] != []
  }

  /** Pieces are only as large as they are because the buffers were full. */
  lemma {:induction false} OfferedPiecesFull(cap: nat, st: Stage, data: seq<Byte>)
    requires |st.body| <= cap
    ensures var st' := Offered(cap, st, data);
            && st.parts <= st'.parts
            && (forall i :: |st.parts| <= i < |st'.parts| ==> |st'.parts[i]| == cap)
            && (|st.body| + |data| <= cap ==> st'.parts == st.parts)
    decreases |st.body| + |data|
  {
    if |st.body| + |data| > cap && cap > 0 {
      var m := cap - |st.body|;
      OfferedPiecesFull(cap, Stage(st.parts + [st.body + data[..m]], []), data[m..]);
    }
  }

  /** A flush cuts a piece there: what was echoed before it is in the pieces cut by then, one more
      when something was collected. */
  lemma FlushCuts(cap: nat, script: seq<Action>, i: nat)
    requires cap > 0 && i < |script| && script[i].FlushAction?
    ensures var before, after := Plan(cap, script[..i]), Plan(cap, script[..i + 1]);
            && after.body == [] && Concat(after.parts) == Echoed(script[..i])
            && after.parts == if before.body == [] then before.parts else before.parts + [before.body]
  {
    hide Offered, Concat, Echoed;
    assert script[..i + 1][..i] == script[..i];
    PlanText(cap, script[..i]);
    FlushedText(Plan(cap, script[..i]));
    assert Concat(Plan(cap, script[..i + 1]).parts) + [] == Concat(Plan(cap, script[..i + 1]).parts);
  }

  lemma ConcatLast(parts: seq<seq<Byte>>, p: seq<Byte>)
    ensures Concat(parts + [p]) == Concat(parts) + p
  {
    assert (parts + [p])[..|parts|] == parts;
  }

  /** Offering data accounts for exactly that data; pieces stay, none is empty, and what is left
      fits the buffers. */
  lemma {:induction false} OfferedText(cap: nat, st: Stage, data: seq<Byte>)
    requires cap > 0 && NoneEmpty(st.parts) && |st.body| <= cap
    ensures var st' := Offered(cap, st, data);
            && Text(st') == Text(st) + data && NoneEmpty(st'.parts) && |st'.body| <= cap
            && st.parts <= st'.parts && (data != [] ==> st'.body != [])
    decreases |st.body| + |data|
  {
    hide Concat, Offered;
    if |st.body| + |data| <= cap {
      AllFits(cap, st, data);
    } else {
      var m := cap - |st.body|;
      FillsUp(cap, st, data, m);
      OfferedText(cap, Stage(st.parts + [st.body + data[..m]], []), data[m..]);
      PieceText(st, data, m);
    }
  }

  lemma AllFits(cap: nat, st: Stage, data: seq<Byte>)
    requires |st.body| + |data| <= cap
    ensures Offered(cap, st, data) == Stage(st.parts, st.body + data)
    ensures Text(Stage(st.parts, st.body + data)) == Text(st) + data
  {
    hide Concat;
  }

  lemma FillsUp(cap: nat, st: Stage, data: seq<Byte>, m: nat)
    requires cap > 0 && |st.body| <= cap && m == cap - |st.body| < |data|
    ensures Offered(cap, st, data) == Offered(cap, Stage(st.parts + [st.body + data[..m]], []), data[m..])
    ensures st.body + data[..m] != []
  {
  }

  lemma PieceText(st: Stage, data: seq<Byte>, m: nat)
    requires m <= |data|
    ensures Text(Stage(st.parts + [st.body + data[..m]], [])) + data[m..] == Text(st) + data
  {
    hide Concat;
    ConcatLast(st.parts, st.body + data[..m]);
    assert data[..m] + data[m..] == data;
  }

  lemma FlushedText(st: Stage)
    requires NoneEmpty(st.parts)
    ensures var st' := Flushed(st); Text(st') == Text(st) && NoneEmpty(st'.parts) && st.parts <= st'.parts
    ensures Concat(Pieces(st)) == Text(st)
  {
    ConcatLast(st.parts, st.body);
    assert Concat(st.parts) + [] == Concat(st.parts);
  }

  /** The pieces of a script hold what it echoes, in order, and none of them is empty. */
  lemma {:induction false} PlanText(cap: nat, script: seq<Action>)
    requires cap > 0
    ensures var st := Plan(cap, script);
            Text(st) == Echoed(script) && NoneEmpty(st.parts) && |st.body| <= cap
  {
    hide Offered, Concat, Flushed, Text;
    if script != [] {
      var front, last := script[..|script| - 1], script[|script| - 1];
      PlanText(cap, front);
      if last.EchoAction? {
        OfferedText(cap, Plan(cap, front), last.data);
      } else {
        FlushedText(Plan(cap, front));
        FlushedBody(cap, Plan(cap, front));
        assert Echoed(front) + [] == Echoed(front);
      }
    } else {
      NothingText();
    }
  }

  lemma FlushedBody(cap: nat, st: Stage)
    requires |st.body| <= cap
    ensures |Flushed(st).body| <= cap
  {
  }

  lemma NothingText()
    ensures Text(Stage([], [])) == []
  {
  }

  /** Pieces once cut stay as they are. */
  lemma {:induction false} PlanGrows(cap: nat, script: seq<Action>, i: nat)
    requires cap > 0 && i <= |script|
    ensures Plan(cap, script[..i]).parts <= Plan(cap, script).parts
    decreases |script|
  {
    hide Offered, Concat, Flushed, Text;
    if i == |script| {
      assert script[..i] == script;
    } else {
      var front, last := script[..|script| - 1], script[|script| - 1];
      PlanGrows(cap, front, i);
      assert front[..i] == script[..i];
      PlanText(cap, front);
      if last.EchoAction? {
        OfferedText(cap, Plan(cap, front), last.data);
      } else {
        FlushedText(Plan(cap, front));
      }
    }
  }

  ghost predicate HasFlush(script: seq<Action>) {
    exists i :: 0 <= i < |script| && script[i].FlushAction?
  }

  /** The first flush finds something echoed. */
  ghost predicate FlushesSomething(script: seq<Action>) {
    forall i :: 0 <= i < |script| && script[i].FlushAction? ==> Echoed(script[..i]) != []
  }

  /** The response is chunked: the script flushes, or echoes more than the buffers hold. */
  ghost predicate IsChunked(size: nat, script: seq<Action>) {
    FlushesSomething(script) && (HasFlush(script) || |Echoed(script)| > Capacity(size))
  }

  /** Then some piece is sent before the end of the request. */
  lemma {:induction false} ChunkedHasParts(size: nat, script: seq<Action>)
    requires BufferSize(size) && IsChunked(size, script)
    ensures Plan(Capacity(size), script).parts != []
  {
    hide Plan, Echoed, Capacity, BufferSize;
    var cap := Capacity(size);
    CapacityValue(size);
    PlanText(cap, script);
    if HasFlush(script) {
      var i :| 0 <= i < |script| && script[i].FlushAction?;
      PlanText(cap, script[..i]);
      AfterFlush(cap, script, i);
      PlanGrows(cap, script, i + 1);
    }
  }

  lemma AfterFlush(cap: nat, script: seq<Action>, i: nat)
    requires i < |script| && script[i].FlushAction? && Text(Plan(cap, script[..i])) != []
    ensures Plan(cap, script[..i + 1]).parts != []
  {
    assert script[..i + 1][..i] == script[..i];
  }

  // ------------------------------------------------------------------- buffers

  /** A body cut into the slots from i on. */
  function SlotsOf(size: nat, body: seq<Byte>, i: nat): seq<seq<Byte>>
    decreases |body|
  {
    var cap := Cap(size, i);
    if |body| <= cap || cap == 0 then [body] else [body[..cap]] + SlotsOf(size, body[cap..], i + 1)
  }

  function WithLine(bufs: seq<seq<Byte>>, line: seq<Byte>): seq<seq<Byte>> {
    if bufs == [] then [] else [line + bufs[0]] + bufs[1..]
  }

  /** The trailer goes behind the last slot, or into one of its own. */
  function WithTrailer(size: nat, bufs: seq<seq<Byte>>, add: seq<Byte>): seq<seq<Byte>> {
    if bufs == [] || |bufs[|bufs| - 1]| + |add| > size then bufs + [add]
    else bufs[..|bufs| - 1] + [bufs[|bufs| - 1] + add]
  }

  /** What ends a chunk: at the end of the request, with the last chunk. */
  function Tail(last: bool): seq<Byte> {
    if last then LAST else []
  }

  /** The buffers of one send. */
  function SendOf(size: nat, front: seq<seq<Byte>>, body: seq<Byte>, last: bool): seq<seq<Byte>> {
    front +
    if body == [] then [Tail(last), []]
    else WithTrailer(size, WithLine(SlotsOf(size, body, 1), SizeLine(|body|)), CRLF + Tail(last))
  }

  /** The i-th send of a response whose script ended in this stage: the header goes with the first. */
  function SendAt(size: nat, header: seq<Byte>, st: Stage, i: nat): seq<seq<Byte>> {
    if i < |st.parts| then SendOf(size, if i == 0 then [header] else [], st.parts[i], false)
    else SendOf(size, [], st.body, true)
  }

  function Sends(size: nat, header: seq<Byte>, st: Stage): seq<seq<seq<Byte>>> {
    seq(|st.parts| + 1, i requires 0 <= i => SendAt(size, header, st, i))
  }

  lemma {:induction false} FlatSlots(size: nat, body: seq<Byte>, i: nat)
    ensures SlotsOf(size, body, i) != [] && Flat(SlotsOf(size, body, i)) == body
    decreases |body|
  {
    var cap := Cap(size, i);
    var s := SlotsOf(size, body, i);
    if |body| <= cap || cap == 0 {
      assert s == [body] && s[1..] == [];
    } else {
      FlatSlots(size, body[cap..], i + 1);
      assert s[1..] == SlotsOf(size, body[cap..], i + 1);
    }
  }

  lemma FlatLine(bufs: seq<seq<Byte>>, line: seq<Byte>)
    requires bufs != []
    ensures Flat(WithLine(bufs, line)) == line + Flat(bufs)
  {
    var s := WithLine(bufs, line);
    assert s[1..] == bufs[1..];
    assert line + bufs[0] + Flat(bufs[1..]) == line + (bufs[0] + Flat(bufs[1..]));
  }

  lemma FlatOne(b: seq<Byte>)
    ensures Flat([b]) == b
  {
    assert [b][1..] == [];
  }

  lemma FlatTrailer(size: nat, bufs: seq<seq<Byte>>, add: seq<Byte>)
    ensures Flat(WithTrailer(size, bufs, add)) == Flat(bufs) + add
  {
    hide Flat;
    FlatOne(add);
    FlatAppend(bufs, [add]);
    if bufs != [] {
      var front, last := bufs[..|bufs| - 1], bufs[|bufs| - 1];
      assert bufs == front + [last];
      FlatOne(last);
      FlatOne(last + add);
      FlatAppend(front, [last]);
      FlatAppend(front, [last + add]);
      assert Flat(front) + (last + add) == Flat(front) + last + add;
    }
  }

  /** A send is one chunk if it has a body, and at the end the last chunk. */
  lemma FlatSend(size: nat, front: seq<seq<Byte>>, body: seq<Byte>, last: bool)
    ensures Flat(SendOf(size, front, body, last))
            == Flat(front) + ((if body == [] then [] else Chunk(body)) + Tail(last))
  {
    hide Flat, SlotsOf, WithLine, WithTrailer, SizeLine;
    if body == [] {
      FlatTwo(Tail(last));
      FlatAppend(front, [Tail(last), []]);
    } else {
      FlatSlots(size, body, 1);
      var bufs := WithLine(SlotsOf(size, body, 1), SizeLine(|body|));
      FlatLine(SlotsOf(size, body, 1), SizeLine(|body|));
      FlatTrailer(size, bufs, CRLF + Tail(last));
      FlatAppend(front, WithTrailer(size, bufs, CRLF + Tail(last)));
      assert SizeLine(|body|) + body + (CRLF + Tail(last)) == Chunk(body) + Tail(last);
    }
  }

  lemma FlatTwo(b: seq<Byte>)
    ensures Flat([b, []]) == [] + b
  {
    FlatOne([]);
    assert [b, []][1..] == [[]];
  }

  // ------------------------------------------------------------------- the whole stream

  lemma SendsAre(size: nat, header: seq<Byte>, st: Stage)
    ensures |Sends(size, header, st)| == |st.parts| + 1
    ensures forall i :: 0 <= i <= |st.parts| ==> Sends(size, header, st)[i] == SendAt(size, header, st, i)
  {
  }

  lemma {:induction false} StreamParts(size: nat, header: seq<Byte>, st: Stage, i: nat)
    requires NoneEmpty(st.parts) && 1 <= i <= |st.parts|
    ensures Stream(Sends(size, header, st)[..i]) == header + Chunks(st.parts[..i])
  {
    hide Flat, SendOf, Sends, Chunk;
    var sends := Sends(size, header, st);
    SendsAre(size, header, st);
    assert sends[..i][..i - 1] == sends[..i - 1] && st.parts[..i][..i - 1] == st.parts[..i - 1];
    var part := st.parts[i - 1];
    var front := if i == 1 then [header] else [];
    assert sends[i - 1] == SendOf(size, front, part, false);
    FlatSend(size, front, part, false);
    if i > 1 {
      StreamParts(size, header, st, i - 1);
      FlatNone();
      assert header + Chunks(st.parts[..i - 1]) + ([] + (Chunk(part) + [])) == header + (Chunks(st.parts[..i - 1]) + Chunk(part));
    } else {
      FlatOne(header);
      assert [] + (header + (Chunk(part) + [])) == header + ([] + Chunk(part));
    }
  }

  lemma FlatNone()
    ensures Flat<Byte>([]) == []
  {
  }

  /** The sends of a response hold the header and then one chunked body with one last chunk. */
  lemma StreamIsFramed(size: nat, header: seq<Byte>, st: Stage)
    requires NoneEmpty(st.parts) && st.parts != []
    ensures Stream(Sends(size, header, st)) == header + (Chunks(Pieces(st)) + LAST)
    ensures NoneEmpty(Pieces(st))
  {
    hide Flat, SendOf, Sends, Chunk, LAST;
    var sends, n := Sends(size, header, st), |st.parts|;
    SendsAre(size, header, st);
    StreamParts(size, header, st, n);
    FlatSend(size, [], st.body, true);
    FlatNone();
    assert st.parts[..n] == st.parts && (st.parts + [st.body])[..n] == st.parts;
    assert Stream(sends) == Stream(sends[..n]) + Flat(sends[n]);
    if st.body == [] {
      assert header + Chunks(st.parts) + ([] + ([] + LAST)) == header + (Chunks(st.parts) + LAST);
    } else {
      assert header + Chunks(st.parts) + ([] + (Chunk(st.body) + LAST)) == header + (Chunks(st.parts) + Chunk(st.body) + LAST);
    }
  }

  /** Every send has something to send. */
  lemma SendsNotVoid(size: nat, header: seq<Byte>, st: Stage)
    requires NoneEmpty(st.parts)
    ensures NoneVoid(Sends(size, header, st))
  {
    hide Flat, SendOf, Sends;
    var sends := Sends(size, header, st);
    SendsAre(size, header, st);
    forall i | 0 <= i < |sends| ensures Flat(sends[i]) != [] {
      if i < |st.parts| {
        FlatSend(size, if i == 0 then [header] else [], st.parts[i], false);
        assert |Chunk(st.parts[i])| >= 2;
      } else {
        FlatSend(size, [], st.body, true);
      }
    }
  }

  /** What the sends hold decodes to exactly what the script echoes. */
  lemma StreamDecodes(size: nat, header: seq<Byte>, script: seq<Action>)
    requires BufferSize(size) && IsChunked(size, script)
    ensures var stream := Stream(Sends(size, header, Plan(Capacity(size), script)));
            && header <= stream
            && Decode(stream[|header|..]) == Some(Echoed(script))
  {
    hide Plan, Echoed, Capacity, BufferSize, Sends, Stream, Decode, Pieces, LAST, Text;
    var st := Plan(Capacity(size), script);
    CapacityValue(size);
    PlanText(Capacity(size), script);
    ChunkedHasParts(size, script);
    StreamIsFramed(size, header, st);
    FlushedText(st);
    DecodeBody(Pieces(st));
    var body := Chunks(Pieces(st)) + LAST;
    assert (header + body)[|header|..] == body;
  }
}
