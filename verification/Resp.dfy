/**
 The Redis protocol as the client speaks it: requests, replies of any nesting, and pipelines.
 Lines come from a socket that drops the CR LF at their end; a line holds neither byte.
 */
module Resp {
  import opened Bytes
  import opened LuaNumber

  /** Replies as a server sends them.  Errors carry their message. */
  datatype Reply =
    | Null
    | Bulk(data: seq<Byte>)
    | Status(line: seq<Byte>)
    | Integer(value: int)
    | Error(line: seq<Byte>)
    | Multi(items: seq<Reply>)

  // ------------------------------------------------------------------- numbers

  function Digits(n: nat): (r: seq<Byte>)
    ensures r != [] && forall i :: 0 <= i < |r| ==> 48 <= r[i] <= 57
  {
    if n < 10 then [48 + n] else Digits(n / 10) + [48 + n % 10]
  }

  function Decimal(v: int): seq<Byte> {
    if v < 0 then [45] + Digits(-v) else Digits(v)
  }

  function DigitsValue(s: seq<Byte>): Option<nat> {
    if s == [] then Some(0)
    else
      match DigitsValue(s[..|s| - 1])
      case None => None
      case Some(v) => if 48 <= s[|s| - 1] <= 57 then Some(10 * v + s[|s| - 1] - 48) else None
  }

  /** A decimal integer; anything else is not one. */
  function Parsed(s: seq<Byte>): Option<int> {
    if s == [] || s == [45] then None
    else if s[0] == 45 then
      match DigitsValue(s[1..])
      case None => None
      case Some(v) => Some(-(v as int))
    else
      match DigitsValue(s)
      case None => None
      case Some(v) => Some(v)
  }

  /** `tonumber` on a decimal integer: the nearest double. */
  function ToNumber(s: seq<Byte>): Option<int> {
    match Parsed(s)
    case None => None
    case Some(v) => Some(ToDouble(v))
  }

  lemma {:induction false} DigitsRoundTrip(n: nat)
    ensures DigitsValue(Digits(n)) == Some(n)
  {
    if n >= 10 {
      DigitsRoundTrip(n / 10);
      var d := Digits(n);
      assert d[..|d| - 1] == Digits(n / 10);
    } else {
      assert [48 + n][..0] == [];
    }
  }

  /** An integer reads back as the nearest double; so it reads back as itself if and only if a
      double holds it, as every length does. */
  lemma NumberRoundTrip(v: int)
    ensures ToNumber(Decimal(v)) == Some(ToDouble(v)) && NoBreaks(Decimal(v))
    ensures ToNumber(Decimal(v)) == Some(v) <==> IsDouble(v)
    ensures -1 <= v <= PRECISION ==> ToNumber(Decimal(v)) == Some(v)
  {
    hide Digits, DigitsValue, ToDouble;
    ToDoubleNearest(v);
    if v < 0 {
      DigitsRoundTrip(-v);
      assert Decimal(v)[1..] == Digits(-v);
    } else {
      DigitsRoundTrip(v);
      assert Decimal(v) == Digits(v) && Digits(v)[0] != 45;
    }
    if -1 <= v <= PRECISION {
      SmallIsDouble(v);
    }
  }

  // ------------------------------------------------------------------- encoding

  predicate NoBreaks(s: seq<Byte>) {
    forall i :: 0 <= i < |s| ==> s[i] != 13 && s[i] != 10
  }

  /** Replies a server can send: status and error lines without line breaks, integers of 64 bits,
      and no more bytes or items than Lua can count. */
  ghost predicate Sendable(r: Reply) {
    match r
    case Null => true
    case Bulk(data) => |data| <= PRECISION
    case Status(line) => NoBreaks(line)
    case Integer(v) => -0x8000_0000_0000_0000 <= v < 0x8000_0000_0000_0000
    case Error(line) => NoBreaks(line)
    case Multi(items) => |items| <= PRECISION && forall i :: 0 <= i < |items| ==> Sendable(items[i])
  }

  function Line(prefix: Byte, rest: seq<Byte>): seq<Byte> {
    [prefix] + rest + CRLF
  }

  function EncodeBulk(data: seq<Byte>): seq<Byte> {
    Line(36, Decimal(|data|)) + data + CRLF
  }

  function Encode(r: Reply): seq<Byte>
    decreases r, 1
  {
    match r
    case Null => Line(36, Decimal(-1))
    case Bulk(data) => EncodeBulk(data)
    case Status(line) => Line(43, line)
    case Integer(v) => Line(58, Decimal(v))
    case Error(line) => Line(45, line)
    case Multi(items) => Line(42, Decimal(|items|)) + EncodeAll(items)
  }

  function EncodeAll(rs: seq<Reply>): seq<Byte>
    decreases rs, 0
  {
    if rs == [] then [] else Encode(rs[0]) + EncodeAll(rs[1..])
  }

  /** No null anywhere in the reply. */
  predicate NoNulls(r: Reply)
    decreases r, 1
  {
    match r
    case Null => false
    case Multi(items) => NoneNull(items)
    case _ => true
  }

  predicate NoneNull(rs: seq<Reply>)
    decreases rs, 0
  {
    rs == [] || (NoNulls(rs[0]) && NoneNull(rs[1..]))
  }

  /** The bytes of a reply up to and including its first null. */
  function UpToNull(r: Reply): seq<Byte>
    requires !NoNulls(r)
    decreases r, 1
  {
    match r
    case Null => Encode(Null)
    case Multi(items) => Line(42, Decimal(|items|)) + UpToNullAmong(items)
  }

  function UpToNullAmong(rs: seq<Reply>): seq<Byte>
    requires !NoneNull(rs)
    decreases rs, 0
  {
    if !NoNulls(rs[0]) then UpToNull(rs[0]) else Encode(rs[0]) + UpToNullAmong(rs[1..])
  }

  /** The bytes of a reply after its first null. */
  function AfterNull(r: Reply): seq<Byte>
    requires !NoNulls(r)
    decreases r, 1
  {
    match r
    case Null => []
    case Multi(items) => AfterNullAmong(items)
  }

  function AfterNullAmong(rs: seq<Reply>): seq<Byte>
    requires !NoneNull(rs)
    decreases rs, 0
  {
    if !NoNulls(rs[0]) then AfterNull(rs[0]) + EncodeAll(rs[1..]) else AfterNullAmong(rs[1..])
  }

  /** They are the whole reply, cut behind the line of a null. */
  lemma {:induction false} CutAtNull(r: Reply)
    requires !NoNulls(r)
    ensures Encode(r) == UpToNull(r) + AfterNull(r)
    ensures var u, l := UpToNull(r), Encode(Null); |l| <= |u| && u[|u| - |l|..] == l
    decreases r, 1
  {
    hide Decimal;
    match r
    case Null => assert Encode(Null) + [] == Encode(Null);
    case Multi(items) =>
      CutAmong(items);
      var head := Line(42, Decimal(|items|));
      assert head + (UpToNullAmong(items) + AfterNullAmong(items)) == head + UpToNullAmong(items) + AfterNullAmong(items);
  }

  lemma {:induction false} CutAmong(rs: seq<Reply>)
    requires !NoneNull(rs)
    ensures EncodeAll(rs) == UpToNullAmong(rs) + AfterNullAmong(rs)
    ensures var u, l := UpToNullAmong(rs), Encode(Null); |l| <= |u| && u[|u| - |l|..] == l
    decreases rs, 0
  {
    hide Encode;
    if !NoNulls(rs[0]) {
      CutAtNull(rs[0]);
      assert UpToNull(rs[0]) + AfterNull(rs[0]) + EncodeAll(rs[1..]) == UpToNull(rs[0]) + (AfterNull(rs[0]) + EncodeAll(rs[1..]));
    } else {
      CutAmong(rs[1..]);
      var u, v := UpToNullAmong(rs[1..]), AfterNullAmong(rs[1..]);
      assert Encode(rs[0]) + (u + v) == Encode(rs[0]) + u + v;
    }
  }

  /** Every integer in the reply is one a double holds. */
  ghost predicate AllDoubles(r: Reply)
    decreases r, 1
  {
    match r
    case Integer(v) => IsDouble(v)
    case Multi(items) => EachDoubles(items)
    case _ => true
  }

  ghost predicate EachDoubles(rs: seq<Reply>)
    decreases rs, 0
  {
    rs == [] || (AllDoubles(rs[0]) && EachDoubles(rs[1..]))
  }

  /** The reply as Lua can hold it: integers rounded to the nearest double. */
  function Rounded(r: Reply): Reply
    decreases r, 1
  {
    match r
    case Integer(v) => Integer(ToDouble(v))
    case Multi(items) => Multi(EachRounded(items))
    case _ => r
  }

  function EachRounded(rs: seq<Reply>): seq<Reply>
    decreases rs, 0
  {
    if rs == [] then [] else [Rounded(rs[0])] + EachRounded(rs[1..])
  }

  /** Rounding changes a reply unless doubles hold all its integers. */
  lemma {:induction false} RoundedSame(r: Reply)
    ensures Rounded(r) == r <==> AllDoubles(r)
    decreases r, 1
  {
    match r
    case Integer(v) => ToDoubleNearest(v);
    case Multi(items) => EachRoundedSame(items);
    case _ =>
  }

  lemma {:induction false} EachRoundedSame(rs: seq<Reply>)
    ensures EachRounded(rs) == rs <==> EachDoubles(rs)
    decreases rs, 0
  {
    if rs != [] {
      RoundedSame(rs[0]);
      EachRoundedSame(rs[1..]);
      var t := EachRounded(rs);
      assert t[0] == Rounded(rs[0]) && t[1..] == EachRounded(rs[1..]);
      assert rs == [rs[0]] + rs[1..];
    }
  }

  // ------------------------------------------------------------------- reading

  /** What a read returns: a reply, or nil, and what is left unread either way.  A null is nil
      too, so a caller cannot tell it from a failure. */
  datatype Read = Value(reply: Reply, rest: seq<Byte>) | Nil(rest: seq<Byte>)

  datatype ReadMany = Values(items: seq<Reply>, left: seq<Byte>) | NilAmong(left: seq<Byte>)

  /** Where the first CR LF is. */
  function FindLine(s: seq<Byte>): (r: Option<nat>)
    ensures r.Some? ==> r.value + 2 <= |s|
  {
    if |s| < 2 then None
    else if s[0] == 13 && s[1] == 10 then Some(0)
    else
      match FindLine(s[1..])
      case None => None
      case Some(k) => Some(k + 1)
  }

  function ReadReply(s: seq<Byte>): (r: Read)
    ensures |r.rest| <= |s| && (r.Value? ==> |r.rest| < |s|)
    decreases |s|, 1
  {
    match FindLine(s)
    case None => Nil([])
    case Some(k) =>
      var line, rest := s[..k], s[k + 2..];
      if line == [] then Nil(rest)
      else
        var arg := line[1..];
        if line[0] == 36 then
          match ToNumber(arg)
          case None => Nil(rest)
          case Some(size) =>
            if size < 0 then Nil(rest)
            else if |rest| < size then Nil([])
            else if |rest| < size + 2 then Nil([])
            else Value(Bulk(rest[..size]), rest[size + 2..])
        else if line[0] == 43 then Value(Status(arg), rest)
        else if line[0] == 42 then
          match ToNumber(arg)
          case None => Nil(rest)
          case Some(n) =>
            if n < 0 then Nil(rest)
            else
              match ReadItems(n, rest)
              case NilAmong(left) => Nil(left)
              case Values(items, left) => Value(Multi(items), left)
        else if line[0] == 58 then
          match ToNumber(arg)
          case None => Nil(rest)
          case Some(v) => Value(Integer(v), rest)
        else if line[0] == 45 then Value(Error(arg), rest)
        else Nil(rest)
  }

  /** `n` replies one after the other, given up at the first nil. */
  function ReadItems(n: nat, s: seq<Byte>): (r: ReadMany)
    ensures |r.left| <= |s|
    decreases |s|, 2 + n
  {
    if n == 0 then Values([], s)
    else
      match ReadReply(s)
      case Nil(rest) => NilAmong(rest)
      case Value(first, rest) =>
        match ReadItems(n - 1, rest)
        case NilAmong(left) => NilAmong(left)
        case Values(more, left) => Values([first] + more, left)
  }

  // ------------------------------------------------------------------- round trips

  lemma {:induction false} FindLineOf(line: seq<Byte>, rest: seq<Byte>)
    requires NoBreaks(line)
    ensures FindLine(line + CRLF + rest) == Some(|line|)
    decreases |line|
  {
    var s := line + CRLF + rest;
    if line != [] {
      assert s[1..] == line[1..] + CRLF + rest;
      FindLineOf(line[1..], rest);
    }
  }

  /** A line of a reply is read back whole. */
  lemma LineRead(prefix: Byte, arg: seq<Byte>, rest: seq<Byte>)
    requires prefix != 13 && prefix != 10 && NoBreaks(arg)
    ensures var s := Line(prefix, arg) + rest; var k := 1 + |arg|;
            && FindLine(s) == Some(k) && k + 2 <= |s| && s[..k] == [prefix] + arg && s[k + 2..] == rest
            && s[..k] != [] && s[..k][0] == prefix && s[..k][1..] == arg
  {
    var line := [prefix] + arg;
    var s := Line(prefix, arg) + rest;
    assert s == line + CRLF + rest;
    FindLineOf(line, rest);
  }

  lemma BulkRoundTrip(data: seq<Byte>, rest: seq<Byte>)
    requires |data| <= PRECISION
    ensures ReadReply(EncodeBulk(data) + rest) == Value(Bulk(data), rest)
  {
    hide FindLine, Decimal, ToNumber;
    NumberRoundTrip(|data|);
    var tail := data + CRLF + rest;
    LineRead(36, Decimal(|data|), tail);
    assert EncodeBulk(data) + rest == Line(36, Decimal(|data|)) + tail;
    assert tail[..|data|] == data && tail[|data| + 2..] == rest;
  }

  /** Every reply a server sends is read back with its integers rounded, and nothing past it
      consumed, if it holds no null; otherwise the read gives nil, having consumed the bytes up to
      and including the first null. */
  lemma {:induction false} ReplyRoundTrip(r: Reply, rest: seq<Byte>)
    requires Sendable(r)
    ensures if NoNulls(r) then ReadReply(Encode(r) + rest) == Value(Rounded(r), rest)
            else ReadReply(Encode(r) + rest) == Nil(AfterNull(r) + rest)
    decreases r, 1
  {
    hide ReadReply, Encode, ToDouble, IsDouble;
    if r.Multi? {
      ItemsRoundTrip(r.items, rest);
      MultiRead(r.items, rest);
    } else {
      SingleRoundTrip(r, rest);
    }
  }

  /** An array is read back when its items are. */
  lemma MultiRead(items: seq<Reply>, rest: seq<Byte>)
    requires |items| <= PRECISION
    ensures ReadReply(Encode(Multi(items)) + rest) ==
            match ReadItems(|items|, EncodeAll(items) + rest)
            case NilAmong(left) => Nil(left)
            case Values(vals, left) => Value(Multi(vals), left)
  {
    hide FindLine, Decimal, ToNumber, ReadItems, Line, EncodeAll;
    NumberRoundTrip(|items|);
    LineRead(42, Decimal(|items|), EncodeAll(items) + rest);
    assert Encode(Multi(items)) + rest == Line(42, Decimal(|items|)) + (EncodeAll(items) + rest);
  }

  /** A bulk or an array with a negative count is nil, and only its line is consumed. */
  lemma NegativeCount(prefix: Byte, n: int, rest: seq<Byte>)
    requires prefix in {36, 42} && n < 0
    ensures ReadReply(Line(prefix, Decimal(n)) + rest) == Nil(rest)
  {
    hide FindLine, Decimal, ToNumber, ReadItems, Line, ToDouble, IsDouble;
    NumberRoundTrip(n);
    NegativeDouble(n);
    LineRead(prefix, Decimal(n), rest);
  }

  lemma NegativeDouble(n: int)
    requires n < 0
    ensures ToDouble(n) < 0
  {
    hide ToDouble;
    ToDoubleNearest(n);
    SmallIsDouble(-1);
  }

  /** So is a line that begins like no reply. */
  lemma UnknownPrefix(prefix: Byte, arg: seq<Byte>, rest: seq<Byte>)
    requires prefix !in {10, 13, 36, 42, 43, 45, 58} && NoBreaks(arg)
    ensures ReadReply(Line(prefix, arg) + rest) == Nil(rest)
  {
    hide FindLine, Line, ReadItems;
    LineRead(prefix, arg, rest);
  }

  /** A bulk that breaks off before its end, or a line without one, leaves nothing. */
  lemma BrokenOff(n: nat, data: seq<Byte>)
    requires |data| < n + 2 && n <= PRECISION
    ensures ReadReply(Line(36, Decimal(n)) + data) == Nil([])
    ensures FindLine(data).None? ==> ReadReply(data) == Nil([])
  {
    hide FindLine, Decimal, ToNumber, ReadItems, Line, ToDouble, IsDouble;
    NumberRoundTrip(n);
    LineRead(36, Decimal(n), data);
  }

  lemma SingleRoundTrip(r: Reply, rest: seq<Byte>)
    requires Sendable(r) && !r.Multi?
    ensures if NoNulls(r) then ReadReply(Encode(r) + rest) == Value(Rounded(r), rest)
            else ReadReply(Encode(r) + rest) == Nil(AfterNull(r) + rest)
  {
    hide FindLine, Decimal, ToNumber, ReadItems, Line, EncodeAll, EncodeBulk, ToDouble, IsDouble;
    match r
    case Null =>
      NegativeCount(36, -1, rest);
      assert [] + rest == rest;
    case Bulk(data) => BulkRoundTrip(data, rest);
    case Status(line) => LineRead(43, line, rest);
    case Integer(v) =>
      NumberRoundTrip(v);
      LineRead(58, Decimal(v), rest);
    case Error(line) => LineRead(45, line, rest);
    case _ =>
  }

  /** Replies one after the other are split where they were joined, in order and with their integers
      rounded, if none holds a null; otherwise the read stops right behind the first null. */
  lemma {:induction false} ItemsRoundTrip(rs: seq<Reply>, rest: seq<Byte>)
    requires forall i :: 0 <= i < |rs| ==> Sendable(rs[i])
    ensures if NoneNull(rs) then ReadItems(|rs|, EncodeAll(rs) + rest) == Values(EachRounded(rs), rest)
            else ReadItems(|rs|, EncodeAll(rs) + rest) == NilAmong(AfterNullAmong(rs) + rest)
    decreases rs, 0
  {
    hide ReadReply, Encode, Rounded, ToDouble, IsDouble;
    if rs == [] {
      assert EncodeAll(rs) + rest == rest;
    } else {
      var more := EncodeAll(rs[1..]) + rest;
      assert EncodeAll(rs) + rest == Encode(rs[0]) + more;
      ReplyRoundTrip(rs[0], more);
      ItemsRoundTrip(rs[1..], rest);
      assert [rs[0]] + rs[1..] == rs;
      if !NoNulls(rs[0]) {
        assert AfterNull(rs[0]) + (EncodeAll(rs[1..]) + rest) == AfterNull(rs[0]) + EncodeAll(rs[1..]) + rest;
      }
    }
  }

  /** A reply is read back exactly if and only if it holds no null and doubles hold all its
      integers. */
  lemma ReplyExactly(r: Reply, rest: seq<Byte>)
    requires Sendable(r)
    ensures ReadReply(Encode(r) + rest) == Value(r, rest) <==> NoNulls(r) && AllDoubles(r)
  {
    hide ReadReply, Encode, Rounded, NoNulls, AllDoubles, Sendable;
    ReplyRoundTrip(r, rest);
    RoundedSame(r);
  }

  /** And so are replies one after the other. */
  lemma ItemsExactly(rs: seq<Reply>, rest: seq<Byte>)
    requires forall i :: 0 <= i < |rs| ==> Sendable(rs[i])
    ensures ReadItems(|rs|, EncodeAll(rs) + rest) == Values(rs, rest) <==> NoneNull(rs) && EachDoubles(rs)
  {
    hide ReadItems, EncodeAll, EachRounded, NoneNull, EachDoubles, Sendable;
    ItemsRoundTrip(rs, rest);
    EachRoundedSame(rs);
  }

  /** An ordinary 64-bit integer that comes back as another. */
  lemma RoundedInteger(rest: seq<Byte>)
    ensures ReadReply(Encode(Integer(9007199254740993)) + rest) == Value(Integer(9007199254740992), rest)
  {
    hide ReadReply, Encode, ToDouble;
    ReplyRoundTrip(Integer(9007199254740993), rest);
    FirstRounded();
  }

  // ------------------------------------------------------------------- the client

  /** The request for some arguments; an absent argument is sent as a null. */
  function Request(args: seq<Option<seq<Byte>>>): seq<Byte> {
    Line(42, Decimal(|args|)) + RequestArgs(args)
  }

  function RequestArgs(args: seq<Option<seq<Byte>>>): seq<Byte> {
    if args == [] then [] else RequestArgs(args[..|args| - 1]) + Encode(AsReply(args[|args| - 1]))
  }

  function AsReply(arg: Option<seq<Byte>>): Reply {
    match arg
    case None => Null
    case Some(data) => Bulk(data)
  }

  function AsReplies(args: seq<Option<seq<Byte>>>): seq<Reply> {
    seq(|args|, i requires 0 <= i < |args| => AsReply(args[i]))
  }

  lemma {:induction false} EncodeAllLast(rs: seq<Reply>, r: Reply)
    ensures EncodeAll(rs + [r]) == EncodeAll(rs) + Encode(r)
    decreases |rs|
  {
    hide Encode;
    if rs == [] {
      assert ([] + [r])[1..] == [];
      assert rs + [r] == [r];
    } else {
      assert (rs + [r])[1..] == rs[1..] + [r];
      EncodeAllLast(rs[1..], r);
      assert Encode(rs[0]) + (EncodeAll(rs[1..]) + Encode(r)) == EncodeAll(rs) + Encode(r);
    }
  }

  /** A request is an array reply of its arguments. */
  lemma {:induction false} RequestIsArray(args: seq<Option<seq<Byte>>>)
    ensures RequestArgs(args) == EncodeAll(AsReplies(args))
    decreases |args|
  {
    if args != [] {
      var front, last := args[..|args| - 1], args[|args| - 1];
      RequestIsArray(front);
      assert AsReplies(args) == AsReplies(front) + [AsReply(last)];
      EncodeAllLast(AsReplies(front), AsReply(last));
    }
  }

  lemma {:induction false} NoneNullBulks(rs: seq<Reply>)
    requires forall i :: 0 <= i < |rs| ==> rs[i].Bulk? || rs[i].Null?
    ensures NoneNull(rs) <==> forall i :: 0 <= i < |rs| ==> rs[i].Bulk?
    decreases |rs|
  {
    if rs != [] {
      NoneNullBulks(rs[1..]);
      assert forall i :: 1 <= i < |rs| ==> rs[i] == rs[1..][i - 1];
    }
  }

  /** Arguments that Lua can hold. */
  ghost predicate Countable(args: seq<Option<seq<Byte>>>) {
    |args| <= PRECISION && forall i :: 0 <= i < |args| && args[i].Some? ==> |args[i].value| <= PRECISION
  }

  lemma {:induction false} BulksAreExact(rs: seq<Reply>)
    requires forall i :: 0 <= i < |rs| ==> rs[i].Bulk?
    ensures EachDoubles(rs)
    decreases |rs|
  {
    if rs != [] {
      BulksAreExact(rs[1..]);
    }
  }

  /** Reading a request back gives its arguments, whatever bytes they hold, and consumes exactly
      the request; with an absent argument it gives nil. */
  lemma RequestRoundTrip(args: seq<Option<seq<Byte>>>, rest: seq<Byte>)
    requires Countable(args)
    ensures if forall i :: 0 <= i < |args| ==> args[i].Some?
            then ReadReply(Request(args) + rest) == Value(Multi(AsReplies(args)), rest)
            else ReadReply(Request(args) + rest).Nil?
    ensures !NoneNull(AsReplies(args)) ==> ReadReply(Request(args) + rest) == Nil(AfterNullAmong(AsReplies(args)) + rest)
  {
    var rs := AsReplies(args);
    RequestIsArray(args);
    assert Request(args) == Encode(Multi(rs));
    ReplyRoundTrip(Multi(rs), rest);
    NoneNullBulks(rs);
    assert forall i :: 0 <= i < |args| ==> (rs[i].Bulk? <==> args[i].Some?);
    if forall i :: 0 <= i < |args| ==> args[i].Some? {
      BulksAreExact(rs);
      EachRoundedSame(rs);
    }
  }

  lemma NoArgs(args: seq<Option<seq<Byte>>>)
    ensures Line(42, Decimal(|args|)) + RequestArgs(args[..0]) == Line(42, Decimal(|args|))
  {
  }

  lemma OneMoreArg(head: seq<Byte>, args: seq<Option<seq<Byte>>>, i: nat)
    requires i < |args|
    ensures head + RequestArgs(args[..i + 1]) == head + RequestArgs(args[..i]) + Encode(AsReply(args[i]))
  {
    assert args[..i + 1][..i] == args[..i];
  }

  lemma BulkBytes(data: seq<Byte>)
    ensures EncodeBulk(data) == Line(36, Decimal(|data|)) + data + CRLF
  {
  }

  /** _gen_req: the pieces are collected in a table and joined. */
  method GenReq(args: seq<Option<seq<Byte>>>) returns (req: seq<Byte>)
    ensures req == Request(args)
  {
    hide Decimal, Line, EncodeBulk;
    req := Line(42, Decimal(|args|));
    NoArgs(args);
    for i := 0 to |args|
      invariant req == Line(42, Decimal(|args|)) + RequestArgs(args[..i])
    {
      OneMoreArg(Line(42, Decimal(|args|)), args, i);
      match args[i] {
        case None => req := req + Line(36, Decimal(-1));
        case Some(data) =>
          BulkBytes(data);
          req := req + (Line(36, Decimal(|data|)) + data + CRLF);
      }
    }
    assert args[..|args|] == args;
  }

  lemma ItemsJoin(vals: seq<Reply>, r: ReadMany)
    ensures vals == [] && r.Values? ==> vals + r.items == r.items
  {
  }

  lemma ItemsStep(n: nat, s: seq<Byte>, vals: seq<Reply>)
    requires n > 0
    ensures match ReadReply(s)
            case Nil(rest) => ReadItems(n, s) == NilAmong(rest)
            case Value(first, rest) =>
              match ReadItems(n - 1, rest)
              case NilAmong(left) => ReadItems(n, s) == NilAmong(left)
              case Values(more, left) =>
                ReadItems(n, s) == Values([first] + more, left) && vals + ([first] + more) == vals + [first] + more
  {
  }

  lemma ItemsEnd(s: seq<Byte>, vals: seq<Reply>)
    ensures ReadItems(0, s) == Values([], s) && vals + [] == vals
  {
  }

  /** The connection: bytes still to be received. */
  class Socket {
    var input: seq<Byte>

    constructor (input: seq<Byte>)
      ensures this.input == input
    {
      this.input := input;
    }

    /** receive(): a line without its CR LF, or nil at the end of input. */
    method ReceiveLine() returns (r: Option<seq<Byte>>)
      modifies this
      ensures match old(FindLine(input))
              case None => r == None && input == []
              case Some(k) => r == Some(old(input)[..k]) && input == old(input)[k + 2..]
    {
      match FindLine(input) {
        case None =>
          input := [];
          r := None;
        case Some(k) =>
          r := Some(input[..k]);
          input := input[k + 2..];
      }
    }

    /** receive(n): exactly n bytes, or nil. */
    method Receive(n: nat) returns (r: Option<seq<Byte>>)
      modifies this
      ensures if n <= |old(input)| then r == Some(old(input)[..n]) && input == old(input)[n..]
              else r == None && input == []
    {
      if n <= |input| {
        r := Some(input[..n]);
        input := input[n..];
      } else {
        input := [];
        r := None;
      }
    }

    /** _read_reply: None is nil. */
    method ReadReplyFrom() returns (r: Option<Reply>)
      modifies this
      ensures match ReadReply(old(input))
              case Nil(rest) => r == None && input == rest
              case Value(reply, rest) => r == Some(reply) && input == rest
      decreases |input|, 1
    {
      var got := ReceiveLine();
      if got.None? || got.value == [] {
        return None;
      }
      var line := got.value;
      var prefix, arg := line[0], line[1..];
      if prefix == 36 {
        var size := ToNumber(arg);
        if size.None? || size.value < 0 {
          return None;
        }
        var data := Receive(size.value);
        if data.None? {
          return None;
        }
        var dummy := Receive(2);
        return if dummy.None? then None else Some(Bulk(data.value));
      } else if prefix == 43 {
        return Some(Status(arg));
      } else if prefix == 42 {
        var n := ToNumber(arg);
        if n.None? || n.value < 0 {
          return None;
        }
        var items := ReadItemsFrom(n.value);
        return if items.None? then None else Some(Multi(items.value));
      } else if prefix == 58 {
        var v := ToNumber(arg);
        return if v.None? then None else Some(Integer(v.value));
      } else if prefix == 45 {
        return Some(Error(arg));
      } else {
        return None;
      }
    }

    /** The loop over the items of an array, which is also the loop of commit_pipeline over the
        replies to its requests: results are collected until one is nil. */
    method ReadItemsFrom(n: nat) returns (r: Option<seq<Reply>>)
      modifies this
      ensures match ReadItems(n, old(input))
              case NilAmong(left) => r == None && input == left
              case Values(items, left) => r == Some(items) && input == left
      decreases |input|, 2 + n
    {
      hide ReadReply, ReadItems;
      var vals := [];
      var i := 0;
      ItemsJoin([], ReadItems(n, input));
      while i < n
        invariant 0 <= i <= n && |input| <= |old(input)| && (i > 0 ==> |input| < |old(input)|)
        invariant match ReadItems(n - i, input)
                  case NilAmong(left) => ReadItems(n, old(input)) == NilAmong(left)
                  case Values(items, left) => ReadItems(n, old(input)) == Values(vals + items, left)
      {
        ItemsStep(n - i, input, vals);
        var res := ReadReplyFrom();
        if res.None? {
          return None;
        }
        vals := vals + [res.value];
        i := i + 1;
      }
      ItemsEnd(input, vals);
      return Some(vals);
    }

    /** commit_pipeline: as many replies as requests were queued.  When the server has sent those
        replies, each goes to its request, its integers rounded, and what follows stays unread; or
        one of them holds a null, and the call fails with everything behind that null unread. */
    method CommitPipeline(requests: nat) returns (r: Option<seq<Reply>>)
      modifies this
      ensures match ReadItems(requests, old(input))
              case NilAmong(left) => r == None && input == left
              case Values(items, left) => r == Some(items) && input == left
      ensures forall replies, rest :: Replies(requests, replies) && old(input) == EncodeAll(replies) + rest ==>
                && (if NoneNull(replies) then r == Some(EachRounded(replies)) && input == rest
                    else r == None && input == AfterNullAmong(replies) + rest)
                && (r == Some(replies) <==> NoneNull(replies) && EachDoubles(replies))
    {
      ghost var sent := input;
      r := ReadItemsFrom(requests);
      forall replies, rest | Replies(requests, replies) && sent == EncodeAll(replies) + rest
        ensures if NoneNull(replies) then r == Some(EachRounded(replies)) && input == rest
                else r == None && input == AfterNullAmong(replies) + rest
        ensures r == Some(replies) <==> NoneNull(replies) && EachDoubles(replies)
      {
        ItemsRoundTrip(replies, rest);
        EachRoundedSame(replies);
      }
    }
  }

  /** One reply a server can send for each request. */
  ghost predicate Replies(requests: nat, replies: seq<Reply>) {
    |replies| == requests && forall i :: 0 <= i < |replies| ==> Sendable(replies[i])
  }
}
