/**
 The url-encoded form reader: fields separated by '&' arrive in pieces of any size, and each
 call may take only so many turns of its loop.
 */
module FormReader {
  import opened Bytes

  const AMP: Byte := 38

  /** Turns of the loop one call may take. */
  const TURNS := 99

  /** Where the first '&' is. */
  function FindAmp(s: seq<Byte>): (r: Option<nat>)
    ensures match r
            case None => AMP !in s
            case Some(p) => p < |s| && s[p] == AMP && AMP !in s[..p]
  {
    if s == [] then None
    else if s[0] == AMP then Some(0)
    else
      match FindAmp(s[1..])
      case None => None
      case Some(p) => Some(p + 1)
  }

  /** A body split at every '&', without a final empty piece. */
  function Split(s: seq<Byte>): seq<seq<Byte>>
    decreases |s|
  {
    match FindAmp(s)
    case None => if s == [] then [] else [s]
    case Some(p) => [s[..p]] + Split(s[p + 1..])
  }

  function Joined(pieces: seq<seq<Byte>>): seq<Byte> {
    if pieces == [] then [] else pieces[0] + Joined(pieces[1..])
  }

  // ------------------------------------------------------------------- one call on values

  /** The outcome of a call: a field or nil, the buffer, the reads still to come. */
  datatype Next = Next(field: Option<seq<Byte>>, buf: seq<Byte>, pieces: seq<seq<Byte>>)

  /** A call with some turns left.  At the end of the input a turn ends the call, or leaves the
      whole buffer for the next turn to return. */
  function Call(buf: seq<Byte>, pieces: seq<seq<Byte>>, turns: nat): Next
    decreases turns
  {
    if turns == 0 then Next(None, buf, pieces)
    else
      match FindAmp(buf)
      case Some(p) => Next(Some(buf[..p]), buf[p + 1..], pieces)
      case None =>
        if pieces != [] then Call(buf + pieces[0], pieces[1..], turns - 1)
        else if buf == [] || turns == 1 then Next(None, buf, [])
        else Next(Some(buf), [], [])
  }

  /** How many reads a call makes before it has its field; finding the end is one of them. */
  function ReadsNeeded(buf: seq<Byte>, pieces: seq<seq<Byte>>): nat
    decreases |pieces|
  {
    if FindAmp(buf).Some? then 0
    else if pieces == [] then 1
    else 1 + ReadsNeeded(buf + pieces[0], pieces[1..])
  }

  /** All fields: calls until one returns nil. */
  function Fields(buf: seq<Byte>, pieces: seq<seq<Byte>>): seq<seq<Byte>>
    decreases |buf| + |Joined(pieces)|
  {
    CallConsumes(buf, pieces, TURNS);
    var r := Call(buf, pieces, TURNS);
    if r.field.None? then [] else [r.field.value] + Fields(r.buf, r.pieces)
  }

  /** No field needs more reads than a call has turns for. */
  predicate NoLongField(buf: seq<Byte>, pieces: seq<seq<Byte>>)
    decreases |buf| + |Joined(pieces)|
  {
    var all := buf + Joined(pieces);
    all == [] ||
    (&& ReadsNeeded(buf, pieces) < TURNS
     && (CallConsumes(buf, pieces, TURNS);
         var r := Call(buf, pieces, TURNS);
         r.field.Some? ==> NoLongField(r.buf, r.pieces)))
  }

  lemma {:induction false} FindAmpAppend(a: seq<Byte>, b: seq<Byte>)
    ensures FindAmp(a).Some? ==> FindAmp(a + b) == FindAmp(a)
  {
    if a != [] && a[0] != AMP {
      FindAmpAppend(a[1..], b);
      assert (a + b)[1..] == a[1..] + b;
    }
  }

  /** A call that returns a field uses it up, with its '&' if there is one. */
  lemma {:induction false} CallConsumes(buf: seq<Byte>, pieces: seq<seq<Byte>>, turns: nat)
    ensures var r := Call(buf, pieces, turns);
            && (r.field.Some? ==> |r.buf| + |Joined(r.pieces)| < |buf| + |Joined(pieces)|)
            && (r.field.None? ==> r.buf + Joined(r.pieces) == buf + Joined(pieces))
    decreases turns
  {
    if turns > 0 && FindAmp(buf).None? {
      if pieces != [] {
        assert buf + Joined(pieces) == buf + pieces[0] + Joined(pieces[1..]);
        CallConsumes(buf + pieces[0], pieces[1..], turns - 1);
      } else {
        assert buf + [] == buf;
      }
    }
  }

  /** With enough turns a call returns the first piece of everything unread, and leaves the rest;
      with too few it returns nil. */
  lemma {:induction false} CallTakesFirst(buf: seq<Byte>, pieces: seq<seq<Byte>>, turns: nat)
    requires turns > 0
    ensures var all := buf + Joined(pieces);
            var r := Call(buf, pieces, turns);
            if all == [] || ReadsNeeded(buf, pieces) >= turns then r.field == None
            else
              match FindAmp(all)
              case None => r == Next(Some(all), [], [])
              case Some(p) => r.field == Some(all[..p]) && r.buf + Joined(r.pieces) == all[p + 1..]
    decreases turns
  {
    var all := buf + Joined(pieces);
    if FindAmp(buf).Some? {
      FindAmpAppend(buf, Joined(pieces));
      var p := FindAmp(buf).value;
      assert all[..p] == buf[..p];
      assert buf[p + 1..] + Joined(pieces) == all[p + 1..];
    } else if pieces == [] {
      assert all == buf;
    } else {
      assert all == buf + pieces[0] + Joined(pieces[1..]);
      if turns > 1 {
        CallTakesFirst(buf + pieces[0], pieces[1..], turns - 1);
      }
    }
  }

  /** The fields do not depend on how the body was cut into reads: they are the pieces of the
      whole body, if and only if no field needs more reads than a call has turns for. */
  lemma {:induction false} FieldsAreSplit(buf: seq<Byte>, pieces: seq<seq<Byte>>)
    ensures Fields(buf, pieces) == Split(buf + Joined(pieces)) <==> NoLongField(buf, pieces)
    decreases |buf| + |Joined(pieces)|
  {
    var all := buf + Joined(pieces);
    var r := Call(buf, pieces, TURNS);
    CallTakesFirst(buf, pieces, TURNS);
    CallConsumes(buf, pieces, TURNS);
    if r.field.Some? {
      FieldsAreSplit(r.buf, r.pieces);
      if FindAmp(all).None? {
        NothingLeft();
      } else {
        FirstsEqual(r.field.value, Fields(r.buf, r.pieces), Split(r.buf + Joined(r.pieces)));
      }
    }
  }

  lemma FirstsEqual(x: seq<Byte>, a: seq<seq<Byte>>, b: seq<seq<Byte>>)
    ensures [x] + a == [x] + b <==> a == b
  {
    assert ([x] + a)[1..] == a && ([x] + b)[1..] == b;
  }

  lemma NothingLeft()
    ensures Fields([], []) == [] && NoLongField([], []) && Split([]) == []
  {
  }

  /** A body that arrives in at most 97 reads is always split right. */
  lemma {:induction false} FewReadsSuffice(buf: seq<Byte>, pieces: seq<seq<Byte>>)
    requires |pieces| <= 97
    ensures NoLongField(buf, pieces)
    decreases |buf| + |Joined(pieces)|
  {
    NeededBound(buf, pieces);
    var r := Call(buf, pieces, TURNS);
    CallConsumes(buf, pieces, TURNS);
    if r.field.Some? {
      CallReads(buf, pieces, TURNS);
      FewReadsSuffice(r.buf, r.pieces);
    }
  }

  lemma {:induction false} NeededBound(buf: seq<Byte>, pieces: seq<seq<Byte>>)
    ensures ReadsNeeded(buf, pieces) <= |pieces| + 1
    decreases |pieces|
  {
    if FindAmp(buf).None? && pieces != [] {
      NeededBound(buf + pieces[0], pieces[1..]);
    }
  }

  lemma {:induction false} CallReads(buf: seq<Byte>, pieces: seq<seq<Byte>>, turns: nat)
    ensures |Call(buf, pieces, turns).pieces| <= |pieces|
    decreases turns
  {
    if turns > 0 && FindAmp(buf).None? && pieces != [] {
      CallReads(buf + pieces[0], pieces[1..], turns - 1);
    }
  }

  // ------------------------------------------------------------------- long fields, by position

  /** How many reads until the byte at a position is there, with n bytes there already; for the
      position after the last byte, the read that finds the end is one more. */
  function ReadsTo(n: nat, pieces: seq<seq<Byte>>, pos: nat): nat
    decreases |pieces|
  {
    if pos < n then 0
    else if pieces == [] then 1
    else 1 + ReadsTo(n + |pieces[0]|, pieces[1..], pos)
  }

  /** The bytes from a to p are one piece of the body, with its '&' or the end at p. */
  predicate IsField(all: seq<Byte>, a: nat, p: nat) {
    && a < |all| && a <= p <= |all|
    && (a == 0 || all[a - 1] == AMP) && (p == |all| || all[p] == AMP)
    && AMP !in all[a..p]
  }

  /** The reads between the '&' before a field, or the start, and the end of the field. */
  function ReadsFor(n: nat, pieces: seq<seq<Byte>>, a: nat, p: nat): int {
    ReadsTo(n, pieces, p) - if a == 0 then 0 else ReadsTo(n, pieces, a - 1)
  }

  /** Every field arrives within fewer reads than a call has turns for. */
  ghost predicate ShortFields(buf: seq<Byte>, pieces: seq<seq<Byte>>) {
    forall a: nat, p: nat :: IsField(buf + Joined(pieces), a, p) ==> ReadsFor(|buf|, pieces, a, p) < TURNS
  }

  /** Where the first field ends. */
  function FirstEnd(all: seq<Byte>): (p: nat)
    ensures p <= |all|
  {
    match FindAmp(all)
    case None => |all|
    case Some(p) => p
  }

  lemma {:induction false} NeededIsReads(buf: seq<Byte>, pieces: seq<seq<Byte>>)
    ensures ReadsNeeded(buf, pieces) == ReadsTo(|buf|, pieces, FirstEnd(buf + Joined(pieces)))
    decreases |pieces|
  {
    var all := buf + Joined(pieces);
    FindAmpAppend(buf, Joined(pieces));
    if FindAmp(buf).None? {
      AmpNotBefore(buf, Joined(pieces));
      if pieces != [] {
        assert all == buf + pieces[0] + Joined(pieces[1..]);
        NeededIsReads(buf + pieces[0], pieces[1..]);
      }
    }
  }

  lemma AmpNotBefore(a: seq<Byte>, b: seq<Byte>)
    requires FindAmp(a).None?
    ensures FirstEnd(a + b) >= |a|
  {
  }

  lemma {:induction false} ReadsShift(n: nat, pieces: seq<seq<Byte>>, q: nat, d: nat)
    ensures ReadsTo(n, pieces, q) == ReadsTo(n + d, pieces, q + d)
    decreases |pieces|
  {
    if q >= n && pieces != [] {
      ReadsShift(n + |pieces[0]|, pieces[1..], q, d);
    }
  }

  /** After a call the remaining reads are counted from where it stopped. */
  lemma {:induction false} CallShifts(buf: seq<Byte>, pieces: seq<seq<Byte>>, turns: nat, q: nat)
    requires var all := buf + Joined(pieces); FindAmp(all).Some? && Call(buf, pieces, turns).field.Some?
    ensures var all := buf + Joined(pieces);
            var r, p := Call(buf, pieces, turns), FirstEnd(all);
            ReadsTo(|r.buf|, r.pieces, q) == ReadsTo(|buf|, pieces, p + 1 + q) - ReadsTo(|buf|, pieces, p)
    decreases turns
  {
    hide Call, FindAmp, Joined;
    CallTurn(buf, pieces, turns);
    JoinedStep(pieces);
    if FindAmp(buf).Some? {
      FindAmpAppend(buf, Joined(pieces));
      var p := FindAmp(buf).value;
      ReadsShift(|buf| - p - 1, pieces, q, p + 1);
    } else {
      AmpNotBefore(buf, Joined(pieces));
      if pieces != [] {
        assert buf + Joined(pieces) == buf + pieces[0] + Joined(pieces[1..]);
        CallShifts(buf + pieces[0], pieces[1..], turns - 1, q);
      }
    }
  }

  lemma JoinedStep(pieces: seq<seq<Byte>>)
    ensures Joined(pieces) == if pieces == [] then [] else pieces[0] + Joined(pieces[1..])
  {
  }

  lemma FirstField(all: seq<Byte>)
    requires all != []
    ensures IsField(all, 0, FirstEnd(all))
    ensures forall p: nat :: IsField(all, 0, p) ==> p == FirstEnd(all)
    ensures forall a: nat, p: nat :: a > 0 && IsField(all, a, p) ==> FindAmp(all).Some? && a > FirstEnd(all)
  {
    var e := FirstEnd(all);
    assert all[0..e] == all[..e];
    assert FindAmp(all).None? ==> all[..e] == all;
  }

  ghost predicate SameField(all: seq<Byte>, e: nat, a: nat, p: nat)
    requires e < |all|
  {
    IsField(all[e + 1..], a, p) <==> IsField(all, e + 1 + a, e + 1 + p)
  }

  /** The fields after the first are those of what follows its '&'. */
  lemma LaterField(all: seq<Byte>, e: nat, a: nat, p: nat)
    requires e < |all| && all[e] == AMP
    ensures SameField(all, e, a, p)
  {
    var rest := all[e + 1..];
    if a <= p <= |rest| {
      assert rest[a..p] == all[e + 1 + a..e + 1 + p];
    }
  }

  /** The two ways to say that no field is too long agree. */
  lemma {:induction false} LongByPosition(buf: seq<Byte>, pieces: seq<seq<Byte>>)
    ensures NoLongField(buf, pieces) <==> ShortFields(buf, pieces)
    decreases |buf| + |Joined(pieces)|
  {
    hide Call, ReadsTo, ReadsNeeded, FindAmp, IsField, FirstEnd;
    var all := buf + Joined(pieces);
    if all == [] {
      NoFields(all);
    } else {
      FirstField(all);
      NeededIsReads(buf, pieces);
      CallTakesFirst(buf, pieces, TURNS);
      CallConsumes(buf, pieces, TURNS);
      var r := Call(buf, pieces, TURNS);
      if r.field.Some? {
        LongByPosition(r.buf, r.pieces);
        if FindAmp(all).None? {
          NoFields([]);
        } else {
          RestShort(buf, pieces);
        }
      }
    }
  }

  lemma NoFields(all: seq<Byte>)
    requires all == []
    ensures forall a: nat, p: nat :: !IsField(all, a, p)
    ensures Joined([]) == [] && ShortFields([], []) && [] + Joined([]) == []
  {
  }

  /** With a short first field, the rest decides. */
  lemma RestShort(buf: seq<Byte>, pieces: seq<seq<Byte>>)
    requires var all := buf + Joined(pieces); FindAmp(all).Some? && ReadsTo(|buf|, pieces, FirstEnd(all)) < TURNS
    requires Call(buf, pieces, TURNS).field.Some?
    requires var all, r := buf + Joined(pieces), Call(buf, pieces, TURNS);
             r.buf + Joined(r.pieces) == all[FirstEnd(all) + 1..]
    ensures var r := Call(buf, pieces, TURNS); ShortFields(buf, pieces) <==> ShortFields(r.buf, r.pieces)
  {
    hide Call, ReadsTo, IsField;
    var all, r := buf + Joined(pieces), Call(buf, pieces, TURNS);
    var e := FirstEnd(all);
    FirstField(all);
    forall a: nat, p: nat
      ensures SameField(all, e, a, p)
      ensures a <= p ==> ReadsFor(|r.buf|, r.pieces, a, p) == ReadsFor(|buf|, pieces, e + 1 + a, e + 1 + p)
    {
      LaterField(all, e, a, p);
      CallShifts(buf, pieces, TURNS, p);
      if a > 0 {
        CallShifts(buf, pieces, TURNS, a - 1);
      }
    }
    ShiftedShort(buf, pieces, r.buf, r.pieces, e);
  }

  lemma ShiftedShort(buf: seq<Byte>, pieces: seq<seq<Byte>>, buf': seq<Byte>, pieces': seq<seq<Byte>>, e: nat)
    requires var all := buf + Joined(pieces); e < |all| && buf' + Joined(pieces') == all[e + 1..]
    requires var all := buf + Joined(pieces);
             forall a: nat, p: nat :: SameField(all, e, a, p)
    requires forall a: nat, p: nat :: a <= p ==>
               ReadsFor(|buf'|, pieces', a, p) == ReadsFor(|buf|, pieces, e + 1 + a, e + 1 + p)
    requires var all := buf + Joined(pieces);
             && (forall p: nat :: IsField(all, 0, p) ==> p == e)
             && (forall a: nat, p: nat :: a > 0 && IsField(all, a, p) ==> a > e)
    requires ReadsFor(|buf|, pieces, 0, e) < TURNS
    ensures ShortFields(buf, pieces) <==> ShortFields(buf', pieces')
  {
    var all := buf + Joined(pieces);
    if ShortFields(buf, pieces) {
      forall a: nat, p: nat | IsField(buf' + Joined(pieces'), a, p) ensures ReadsFor(|buf'|, pieces', a, p) < TURNS {
        assert SameField(all, e, a, p);
      }
    }
    if ShortFields(buf', pieces') {
      forall a: nat, p: nat | IsField(all, a, p) ensures ReadsFor(|buf|, pieces, a, p) < TURNS {
        if a > 0 {
          var a', p': nat := a - e - 1, p - e - 1;
          assert SameField(all, e, a', p');
        }
      }
    }
  }

  /** The fields of a body are its pieces, if and only if every one of them arrives within fewer
      than 99 reads, counted from the '&' before it. */
  lemma FieldsExactly(pieces: seq<seq<Byte>>)
    ensures Fields([], pieces) == Split(Joined(pieces)) <==> ShortFields([], pieces)
  {
    hide Fields, Split, NoLongField, ShortFields;
    assert [] + Joined(pieces) == Joined(pieces);
    FieldsAreSplit([], pieces);
    LongByPosition([], pieces);
  }

  /** A form without an '&' that takes 98 reads or more, such as 98 reads of one letter each, is
      lost: the reader finds no field in it. */
  lemma LongFieldLost(pieces: seq<seq<Byte>>)
    requires |pieces| >= 98 && Joined(pieces) != [] && AMP !in Joined(pieces)
    ensures Fields([], pieces) == [] && Split(Joined(pieces)) == [Joined(pieces)]
    ensures !ShortFields([], pieces)
  {
    hide Fields, Call, ReadsNeeded, ShortFields;
    assert [] + Joined(pieces) == Joined(pieces);
    EveryReadNeeded([], pieces);
    CallTakesFirst([], pieces, TURNS);
    FieldsStep([], pieces);
    FieldsExactly(pieces);
    assert FindAmp(Joined(pieces)).None?;
  }

  /** Without an '&' every read is needed, and one more to find the end. */
  lemma {:induction false} EveryReadNeeded(buf: seq<Byte>, pieces: seq<seq<Byte>>)
    requires AMP !in buf + Joined(pieces)
    ensures ReadsNeeded(buf, pieces) == |pieces| + 1
    decreases |pieces|
  {
    if pieces != [] {
      assert buf + Joined(pieces) == buf + pieces[0] + Joined(pieces[1..]);
      EveryReadNeeded(buf + pieces[0], pieces[1..]);
    }
  }

  // ------------------------------------------------------------------- the reader

  /** The reader's state: the buffer, nil when empty, and the reads still to come. */
  class Reader {
    var bodyBuf: Option<seq<Byte>>
    var pieces: seq<seq<Byte>>

    constructor (pieces: seq<seq<Byte>>)
      ensures bodyBuf == None && this.pieces == pieces
    {
      bodyBuf, this.pieces := None, pieces;
    }

    function Buf(): seq<Byte>
      reads this
    {
      if bodyBuf.Some? then bodyBuf.value else []
    }

    /** read_request_body: the next read, or nil and "eof". */
    method ReadRequestBody() returns (c: Option<seq<Byte>>, eof: bool)
      modifies this`pieces
      ensures if old(pieces) == [] then c == None && eof && pieces == []
              else c == Some(old(pieces)[0]) && !eof && pieces == old(pieces)[1..]
    {
      if pieces == [] {
        return None, true;
      }
      c, eof := Some(pieces[0]), false;
      pieces := pieces[1..];
    }

    /** next_post_field, up to decoding the field. */
    method NextPostField() returns (field: Option<seq<Byte>>)
      modifies this
      ensures Next(field, Buf(), pieces) == Call(old(Buf()), old(pieces), TURNS)
    {
      hide Call;
      var eof := false;
      var nr := 1;
      ghost var goal := Call(Buf(), pieces, TURNS);
      while true
        invariant 1 <= nr <= 100
        invariant !eof ==> Call(Buf(), pieces, 100 - nr) == goal
        invariant eof ==> pieces == [] && bodyBuf.Some? && Buf() != []
        invariant eof ==> goal == if nr == 100 then Next(None, Buf(), []) else Next(Some(Buf()), [], [])
        decreases 100 - nr
      {
        nr := nr + 1;
        CallTurn(Buf(), pieces, 101 - nr);
        if nr > 100 {
          return None;
        }
        if bodyBuf.Some? {
          var buf := bodyBuf.value;
          var p := if eof then Some(|buf|) else FindAmp(buf);
          if p.Some? {
            field := Some(buf[..p.value]);
            bodyBuf := Some(if p.value + 1 <= |buf| then buf[p.value + 1..] else []);
            if bodyBuf.value == [] {
              bodyBuf := None;
            }
            assert buf[..|buf|] == buf;
            return;
          }
        }
        var c;
        c, eof := ReadRequestBody();
        if c.Some? {
          bodyBuf := Some(Buf() + c.value);
        } else if bodyBuf.None? || bodyBuf.value == [] {
          return None;
        }
      }
    }

    /** The loop of parse_www_form over the fields. */
    method ReadAll() returns (fields: seq<seq<Byte>>)
      modifies this
      ensures fields == Fields(old(Buf()), old(pieces))
      ensures fields == Split(old(Buf()) + Joined(old(pieces))) <==> ShortFields(old(Buf()), old(pieces))
    {
      hide Call, Fields, NoLongField, Split, Joined, ShortFields;
      FieldsAreSplit(Buf(), pieces);
      LongByPosition(Buf(), pieces);
      ghost var goal := Fields(Buf(), pieces);
      fields := [];
      assert fields + goal == goal;
      FieldsStep(Buf(), pieces);
      var field := NextPostField();
      while field.Some?
        invariant goal == fields + if field.None? then [] else [field.value] + Fields(Buf(), pieces)
        decreases field.Some?, |Buf()| + |Joined(pieces)|
      {
        FieldsStep(Buf(), pieces);
        assert fields + ([field.value] + Fields(Buf(), pieces)) == fields + [field.value] + Fields(Buf(), pieces);
        fields := fields + [field.value];
        field := NextPostField();
      }
      assert fields + [] == fields;
    }
  }

  /** One turn of a call. */
  lemma CallTurn(buf: seq<Byte>, pieces: seq<seq<Byte>>, turns: nat)
    ensures turns == 0 ==> Call(buf, pieces, turns) == Next(None, buf, pieces)
    ensures turns > 0 && FindAmp(buf).Some? ==>
              Call(buf, pieces, turns) == Next(Some(buf[..FindAmp(buf).value]), buf[FindAmp(buf).value + 1..], pieces)
    ensures turns > 0 && FindAmp(buf).None? && pieces != [] ==>
              Call(buf, pieces, turns) == Call(buf + pieces[0], pieces[1..], turns - 1)
    ensures turns > 0 && FindAmp(buf).None? && pieces == [] ==>
              Call(buf, pieces, turns) == if buf == [] || turns == 1 then Next(None, buf, []) else Next(Some(buf), [], [])
    ensures FindAmp([]) == None
  {
  }

  lemma FieldsStep(buf: seq<Byte>, pieces: seq<seq<Byte>>)
    ensures var r := Call(buf, pieces, TURNS);
            && Fields(buf, pieces) == (if r.field.None? then [] else [r.field.value] + Fields(r.buf, r.pieces))
            && (r.field.Some? ==> |r.buf| + |Joined(r.pieces)| < |buf| + |Joined(pieces)|)
  {
    CallConsumes(buf, pieces, TURNS);
  }
}
