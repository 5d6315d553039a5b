/**
 A response that the write loop spoils: buffers of 1024 bytes, one echo of 1017 and a flush.  The
 socket takes the header, one byte, and then 1023.
 */
module ResponseExample {
  import opened Bytes
  import opened ChunkedBody
  import opened PartialWrite
  import opened ResponseBuffers
  import opened Transmission
  import opened ResponsePlan

  const SIZE := 1024
  const LINE: seq<Byte> := [51, 102, 57, 13, 10]

  function Script(body: seq<Byte>): seq<Action> {
    [EchoAction(body), FlushAction]
  }

  /** The slots of the first send after the header: slot 1 is full, and one byte is left over. */
  function Slots(body: seq<Byte>): seq<seq<Byte>>
    requires |body| == 1017
  {
    [LINE + body[..1016], body[1016..] + CRLF]
  }

  lemma ScriptPlan(body: seq<Byte>)
    requires |body| == 1017
    ensures IsChunked(SIZE, Script(body)) && Plan(Capacity(SIZE), Script(body)) == Stage([body], [])
  {
    var script, cap := Script(body), Capacity(SIZE);
    CapacityValue(SIZE);
    assert script[..2][..1] == script[..1] == [EchoAction(body)] && script[..1][..0] == [];
    assert script[..2] == script && script[1].FlushAction?;
    assert Echoed([EchoAction(body)]) == [] + body;
    assert Plan(cap, []) == Stage([], []);
    assert Plan(cap, script[..1]) == Offered(cap, Stage([], []), body) == Stage([], [] + body);
    assert [] + body == body;
    assert Plan(cap, script) == Flushed(Stage([], body));
  }

  lemma FirstSend(header: seq<Byte>, body: seq<Byte>)
    requires |body| == 1017
    ensures SendOf(SIZE, [header], body, false) == [header] + Slots(body)
    ensures Flat([header] + Slots(body)) == header + Chunk(body) && Chunk(body) == LINE + body + CRLF
  {
    assert Hex(1017) == Hex(63) + [57] && Hex(63) == Hex(3) + [102] && Hex(3) == [51];
    assert SizeLine(1017) == LINE;
    var slots := SlotsOf(SIZE, body, 1);
    assert slots == [body[..1016]] + SlotsOf(SIZE, body[1016..], 2) == [body[..1016], body[1016..]];
    var lined := WithLine(slots, LINE);
    assert lined == [LINE + body[..1016], body[1016..]];
    assert CRLF + Tail(false) == CRLF;
    assert WithTrailer(SIZE, lined, CRLF) == Slots(body);
    FlatSend(SIZE, [header], body, false);
    FlatOne(header);
    assert header + (Chunk(body) + []) == header + Chunk(body);
  }

  /** Where the buffers begin. */
  lemma Boundary(header: seq<Byte>, body: seq<Byte>)
    requires |header| > 0 && |body| == 1017
    ensures var bufs, h := [header] + Slots(body), |header|;
            GoesStale(bufs, h) && !GoesStale(bufs, 0) && From(bufs, h + 1, true) == h
  {
    var bufs, h := [header] + Slots(body), |header|;
    assert bufs[1..] == Slots(body);
    assert Start(bufs, h, 0) == Start(Slots(body), h, h) == h;
    assert Start(bufs, h + 1, 0) == Start(Slots(body), h + 1, h) == h;
    assert Left(bufs, h, 0) == Left(Slots(body), h, h) == 2;
  }

  /** The first call sends the first byte of the size line twice and never sends the last byte of
      the chunk; its position reaches the end all the same. */
  lemma FirstCall(header: seq<Byte>, body: seq<Byte>)
    requires |header| > 0 && |body| == 1017
    ensures var bufs := [header] + Slots(body);
            && |Chunk(body)| == 1024
            && WriteCall(false, bufs, 0, 0, [|header|, 1, 1023])
               == (header + ([51] + Chunk(body)[..1023]), |Flat(bufs)|)
            && !Harmless(false, bufs, 0, false, [|header|, 1, 1023])
  {
    hide Flat, Round, WriteCall, Harmless, GoesStale, From, Chunk, Slots, Right;
    var bufs, chunk := [header] + Slots(body), Chunk(body);
    FirstSend(header, body);
    Boundary(header, body);
    var counts: seq<nat> := [|header|, 1, 1023];
    ThreeRounds(bufs, header, chunk);
    CallLength(false, bufs, 0, 0, counts);
    NotThat(header, chunk);
    HarmlessExactly(false, bufs, 0, 0, counts);
    NotRight(bufs, counts);
  }

  lemma ThreeRounds(bufs: seq<seq<Byte>>, header: seq<Byte>, chunk: seq<Byte>)
    requires header != [] && |chunk| == 1024 && chunk[0] == 51 && Flat(bufs) == header + chunk
    requires GoesStale(bufs, |header|) && !GoesStale(bufs, 0) && From(bufs, |header| + 1, true) == |header|
    ensures WriteCall(false, bufs, 0, 0, [|header|, 1, 1023]).0 == header + ([51] + chunk[..1023])
  {
    hide Flat, Round, WriteCall, Harmless, GoesStale, From;
    var h := |header|;
    var c0, c1: seq<nat> := [h, 1, 1023], [1, 1023];
    assert c0[1..] == c1 && c1[1..] == [1023];
    FromFresh(bufs, 0);
    FromFresh(bufs, h);
    var from0, n0, k0, more0 := FirstRound(false, bufs, 0, 0, c0);
    var from1, n1, k1, more1 := FirstRound(false, bufs, h, k0, c1);
    ThirdRound(bufs, header, chunk, k1);
    assert (header + chunk)[0..][..h] == header && (header + chunk)[h..][..1] == [51];
  }

  lemma ThirdRound(bufs: seq<seq<Byte>>, header: seq<Byte>, chunk: seq<Byte>, k: int)
    requires k < 0 && |chunk| == 1024 && Flat(bufs) == header + chunk
    requires From(bufs, |header| + 1, true) == |header|
    ensures WriteCall(false, bufs, |header| + 1, k, [1023]).0 == chunk[..1023]
  {
    hide Flat, Round, WriteCall, Harmless, GoesStale, From;
    var c: seq<nat> := [1023];
    var from, n, k', more := FirstRound(false, bufs, |header| + 1, k, c);
    assert c[1..] == [];
    NoRound(false, bufs, |header| + 1 + n, k', []);
    assert (header + chunk)[|header|..][..1023] + [] == chunk[..1023];
  }

  lemma FromFresh<T>(bufs: seq<seq<T>>, sent: nat)
    ensures From(bufs, sent, false) == sent
  {
  }

  lemma NotRight(bufs: seq<seq<Byte>>, counts: seq<nat>)
    requires !(WriteCall(false, bufs, 0, 0, counts).0 <= Flat(bufs)[0..])
    ensures !Right(false, bufs, 0, 0, counts)
  {
  }

  lemma NotThat(header: seq<Byte>, chunk: seq<Byte>)
    requires |chunk| == 1024 && chunk[0] == 51 && chunk[1] == 102
    ensures !(header + ([51] + chunk[..1023]) <= (header + chunk)[0..])
  {
    var h, out, all := |header|, header + ([51] + chunk[..1023]), (header + chunk)[0..];
    assert out[h + 1] == 51 && all[h + 1] == 102;
  }

  lemma SecondCall()
    ensures SendOf(SIZE, [], [], true) == [LAST, []] && Flat([LAST, []]) == LAST
    ensures WriteCall(false, [LAST, []], 0, 0, [5]) == (LAST, 5)
  {
    hide Flat, Round, WriteCall, Harmless, GoesStale, From;
    var bufs: seq<seq<Byte>> := [LAST, []];
    assert [] + bufs == bufs;
    FlatTwo(LAST);
    var c: seq<nat> := [5];
    var from, n, k, more := FirstRound(false, bufs, 0, 0, c);
    FromFresh(bufs, 0);
    assert c[1..] == [];
    NoRound(false, bufs, n, k, []);
    CallLength(false, bufs, 0, 0, c);
    assert LAST[0..][..5] + [] == LAST;
  }

  /** A reader takes the doubled digit for a size of 13305 bytes, which never come. */
  lemma NotDecoded(body: seq<Byte>)
    requires |body| == 1017
    ensures Decode([51] + Chunk(body)[..1023] + LAST) == None
  {
    hide Chunk;
    FirstSend([], body);
    var digits: seq<Byte> := [51, 51, 102, 57];
    var s := [51] + Chunk(body)[..1023] + LAST;
    var rest := s[4..];
    assert |s| == 1029 && s == digits + rest && rest[0] == 13;
    HexRunOf(digits, rest);
    assert s[..4] == digits;
    assert HexValue([51]) == 3 by { assert [51][..0] == []; }
    assert HexValue([51, 51]) == 51 by { assert [51, 51][..1] == [51]; }
    assert HexValue([51, 51, 102]) == 831 by { assert [51, 51, 102][..2] == [51, 51]; }
    assert HexValue(digits) == 13305 by { assert digits[..3] == [51, 51, 102]; }
  }

  /** The whole response, for any header and any 1017 bytes: after two calls it is finished, one
      byte went out twice and one never, and the client cannot read it. */
  lemma SpoiledResponse(header: seq<Byte>, body: seq<Byte>, socket: Socket)
    requires |header| > 0 && |body| == 1017
    requires socket(0) == [|header|, 1, 1023] && socket(1) == [5]
    ensures IsChunked(SIZE, Script(body))
    ensures var sends := Sends(SIZE, header, Plan(Capacity(SIZE), Script(body)));
            && AfterCalls(false, sends, socket, 2) == Progress(2, 0, header + ([51] + Chunk(body)[..1023]) + LAST)
            && |sends| == 2 && Stream(sends) == header + Chunk(body) + LAST
            && !HarmlessCalls(false, sends, socket, 2)
    ensures Decode((header + ([51] + Chunk(body)[..1023]) + LAST)[|header|..]) == None
  {
    hide Flat, WriteCall, Harmless, Chunk, Slots, SendOf, Sends, Plan, IsChunked, AfterCalls, Decode, Stream;
    ScriptPlan(body);
    var st := Stage([body], []);
    var sends := Sends(SIZE, header, st);
    SendsAre(SIZE, header, st);
    FirstSend(header, body);
    FirstCall(header, body);
    SecondCall();
    NothingSent(sends, socket);
    OneMoreCall(false, sends, socket, 0);
    OneMoreCall(false, sends, socket, 1);
    TwoSends(sends);
    assert [] + (header + ([51] + Chunk(body)[..1023])) == header + ([51] + Chunk(body)[..1023]);
    NotDecoded(body);
    assert (header + ([51] + Chunk(body)[..1023]) + LAST)[|header|..] == [51] + Chunk(body)[..1023] + LAST;
  }

  lemma NothingSent(sends: seq<seq<seq<Byte>>>, socket: Socket)
    ensures AfterCalls(false, sends, socket, 0) == Progress(0, 0, [])
  {
  }

  lemma TwoSends(sends: seq<seq<seq<Byte>>>)
    requires |sends| == 2
    ensures Stream(sends) == Flat(sends[0]) + Flat(sends[1])
  {
    hide Flat;
    assert sends[..1] == [sends[0]] && sends[..1][..0] == [];
    assert Stream(sends[..1]) == [] + Flat(sends[0]);
  }
}
