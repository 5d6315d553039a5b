/**
 The output buffers of a response: slot 0 holds the headers, slots 1 to 237 the body.  Slot 1
 keeps 8 bytes free for a chunk-size line.
 */
module ResponseBuffers {
  import opened Bytes
  import opened PartialWrite

  const SLOTS := 238

  type Buffer = Option<seq<Byte>>

  /** Sizes that leave room for a header of the documented form, and for which a chunk size
      always fits six hex digits. */
  predicate BufferSize(size: nat) {
    1024 <= size <= 71089
  }

  function Data(b: Buffer): seq<Byte> {
    if b.Some? then b.value else []
  }

  function Datas(bs: seq<Buffer>): seq<seq<Byte>> {
    seq(|bs|, i requires 0 <= i < |bs| => Data(bs[i]))
  }

  /** The bytes in slots lo to hi - 1. */
  function Content(iov: seq<Buffer>, lo: nat, hi: nat): seq<Byte>
    requires lo <= hi <= |iov|
  {
    Flat(Datas(iov[lo..hi]))
  }

  /** How much of slot i the body may use. */
  function Cap(size: nat, i: nat): nat {
    if i == 1 then (if size >= 8 then size - 8 else 0) else size
  }

  /** The room in slots 1 to k together. */
  function Room(size: nat, k: nat): nat {
    if k == 0 then 0 else Room(size, k - 1) + Cap(size, k)
  }

  /** Everything that may be buffered: slot 237 stays free for the trailer. */
  function Capacity(size: nat): nat {
    Room(size, SLOTS - 2)
  }

  /** How many of n more bytes are accepted when `used` are buffered already. */
  function Fitting(size: nat, used: nat, n: nat): (r: nat)
    ensures r <= n
  {
    if used + n <= Capacity(size) then n
    else if used <= Capacity(size) then Capacity(size) - used
    else 0
  }

  lemma {:induction false} RoomProduct(size: nat, k: nat)
    requires 1 <= k && size >= 8
    ensures Room(size, k) == k * size - 8
  {
    if k > 1 {
      RoomProduct(size, k - 1);
      assert (k - 1) * size + size == k * size;
    } else {
      assert Room(size, 1) == Room(size, 0) + Cap(size, 1);
    }
  }

  /** 236 buffers less the reserved bytes, always below 2 to the 24th. */
  lemma CapacityValue(size: nat)
    requires BufferSize(size)
    ensures Capacity(size) == 236 * size - 8 < 0x100_0000
  {
    RoomProduct(size, 236);
  }

  lemma {:induction false} RoomMonotone(size: nat, j: nat, k: nat)
    requires j <= k
    ensures Room(size, j) <= Room(size, k)
  {
    if j < k { RoomMonotone(size, j, k - 1); }
  }

  /** Body buffers while output is collected: all but the last are full, and nothing is
      allocated past the last. */
  ghost predicate Filling(size: nat, iov: seq<Buffer>, count: nat) {
    && |iov| == SLOTS
    && if iov[1].None? then
         count <= 1 && forall i :: 1 <= i < SLOTS ==> iov[i].None?
       else
         && 1 <= count < SLOTS
         && (forall i :: 1 <= i < count ==> iov[i].Some? && |iov[i].value| == Cap(size, i))
         && |Data(iov[count])| <= Cap(size, count) && (count == SLOTS - 1 ==> iov[count].None?)
         && (forall i :: count < i < SLOTS ==> iov[i].None?)
  }

  /** The current slot, unless it is the first or the one kept for the trailer, has data in it. */
  ghost predicate Tight(iov: seq<Buffer>, count: nat) {
    1 < count < |iov| && count < SLOTS - 1 ==> Data(iov[count]) != []
  }

  lemma FillingShape(size: nat, iov: seq<Buffer>, count: nat)
    requires Filling(size, iov, count)
    ensures |iov| == SLOTS && count < SLOTS
    ensures iov[1].None? ==> count <= 1
    ensures iov[1].Some? ==> 1 <= count && |Data(iov[count])| <= Cap(size, count)
    ensures count == SLOTS - 1 ==> Tight(iov, count) && iov[1].Some?
  {
  }

  /** The body collected so far. */
  function Body(iov: seq<Buffer>, count: nat): seq<Byte>
    requires |iov| == SLOTS && count < SLOTS
  {
    Content(iov, 1, count + 1)
  }

  lemma ContentSplit(iov: seq<Buffer>, lo: nat, mid: nat, hi: nat)
    requires lo <= mid <= hi <= |iov|
    ensures Content(iov, lo, hi) == Content(iov, lo, mid) + Content(iov, mid, hi)
  {
    assert Datas(iov[lo..hi]) == Datas(iov[lo..mid]) + Datas(iov[mid..hi]);
    FlatAppend(Datas(iov[lo..mid]), Datas(iov[mid..hi]));
  }

  lemma ContentOne(iov: seq<Buffer>, i: nat)
    requires i < |iov|
    ensures Content(iov, i, i + 1) == Data(iov[i])
  {
    assert Datas(iov[i..i + 1]) == [Data(iov[i])];
    assert [Data(iov[i])][1..] == [];
    assert Flat([Data(iov[i])]) == Data(iov[i]) + Flat<Byte>([]);
  }

  lemma ContentNone(iov: seq<Buffer>, i: nat)
    requires i <= |iov|
    ensures Content(iov, i, i) == []
  {
    assert Datas(iov[i..i]) == [];
  }

  lemma ContentSame(iov: seq<Buffer>, iov': seq<Buffer>, lo: nat, hi: nat)
    requires lo <= hi <= |iov| && |iov'| == |iov|
    requires forall i :: lo <= i < hi ==> Data(iov[i]) == Data(iov'[i])
    ensures Content(iov, lo, hi) == Content(iov', lo, hi)
  {
    assert Datas(iov[lo..hi]) == Datas(iov'[lo..hi]);
  }

  /** Bytes appended to the last of the slots lo to hi. */
  lemma ContentAppend(iov: seq<Buffer>, lo: nat, hi: nat, more: seq<Byte>)
    requires lo <= hi < |iov|
    ensures Content(iov[hi := Some(Data(iov[hi]) + more)], lo, hi + 1) == Content(iov, lo, hi + 1) + more
  {
    var iov' := iov[hi := Some(Data(iov[hi]) + more)];
    ContentSplit(iov, lo, hi, hi + 1);
    ContentSplit(iov', lo, hi, hi + 1);
    ContentSame(iov, iov', lo, hi);
    ContentOne(iov, hi);
    ContentOne(iov', hi);
    assert Content(iov, lo, hi) + (Data(iov[hi]) + more) == Content(iov, lo, hi + 1) + more;
  }

  lemma {:induction false} FullLength(size: nat, iov: seq<Buffer>, k: nat)
    requires 1 <= k <= |iov|
    requires forall i :: 1 <= i < k ==> |Data(iov[i])| == Cap(size, i)
    ensures |Content(iov, 1, k)| == Room(size, k - 1)
  {
    hide Content;
    if k > 1 {
      FullLength(size, iov, k - 1);
      ContentSplit(iov, 1, k - 1, k);
      ContentOne(iov, k - 1);
    } else {
      ContentNone(iov, 1);
    }
  }

  lemma EmptyBody(size: nat, iov: seq<Buffer>, count: nat)
    requires Filling(size, iov, count) && iov[1].None?
    ensures Body(iov, count) == []
  {
    hide Content;
    if count == 1 { ContentOne(iov, 1); } else { ContentNone(iov, 1); }
  }

  /** The length of the body is the room of the full slots plus what the last one holds. */
  lemma BodyLength(size: nat, iov: seq<Buffer>, count: nat)
    requires Filling(size, iov, count) && iov[1].Some?
    ensures |Body(iov, count)| == Room(size, count - 1) + |Data(iov[count])|
  {
    hide Content, Room;
    FullLength(size, iov, count);
    ContentSplit(iov, 1, count, count + 1);
    ContentOne(iov, count);
  }

  /** It never exceeds the capacity, and reaches it when slot 237 is next. */
  lemma BodyFits(size: nat, iov: seq<Buffer>, count: nat)
    requires Filling(size, iov, count)
    ensures |Body(iov, count)| <= Capacity(size)
    ensures count == SLOTS - 1 ==> |Body(iov, count)| == Capacity(size)
  {
    hide Content, Body;
    if iov[1].None? {
      EmptyBody(size, iov, count);
    } else {
      BodyLength(size, iov, count);
      if count < SLOTS - 1 {
        RoomMonotone(size, count, SLOTS - 2);
      }
    }
  }

  /** A body with bytes in it has bytes in slot 1. */
  lemma FirstSlotUsed(size: nat, iov: seq<Buffer>, count: nat)
    requires BufferSize(size) && Filling(size, iov, count) && Body(iov, count) != []
    ensures iov[1].Some? && iov[1].value != []
  {
    hide Content;
    if iov[1].None? {
      EmptyBody(size, iov, count);
    } else if count == 1 {
      ContentOne(iov, 1);
    }
  }

  lemma UsedBody(size: nat, iov: seq<Buffer>, count: nat)
    requires Filling(size, iov, count) && iov[1].Some? && iov[1].value != []
    ensures Body(iov, count) != []
  {
    hide Content;
    ContentSplit(iov, 1, 2, count + 1);
    ContentOne(iov, 1);
  }

  // ------------------------------------------------------------------- filling steps

  lemma StartFilling(size: nat, iov: seq<Buffer>, count: nat)
    requires Filling(size, iov, count) && iov[1].None?
    ensures Filling(size, iov[1 := Some([])], 1) && Body(iov[1 := Some([])], 1) == [] == Body(iov, count)
  {
    hide Content;
    EmptyBody(size, iov, count);
    ContentOne(iov[1 := Some([])], 1);
  }

  lemma AppendFilling(size: nat, iov: seq<Buffer>, count: nat, more: seq<Byte>)
    requires Filling(size, iov, count) && iov[1].Some? && count < SLOTS - 1
    requires |Data(iov[count])| + |more| <= Cap(size, count)
    ensures var iov' := iov[count := Some(Data(iov[count]) + more)];
            Filling(size, iov', count) && Body(iov', count) == Body(iov, count) + more
  {
    hide Content;
    ContentAppend(iov, 1, count, more);
  }

  lemma NextFilling(size: nat, iov: seq<Buffer>, count: nat)
    requires Filling(size, iov, count) && iov[1].Some? && count < SLOTS - 1
    requires iov[count].Some? && |iov[count].value| == Cap(size, count)
    ensures var iov' := iov[count + 1 := None];
            Filling(size, iov', count + 1) && Body(iov', count + 1) == Body(iov, count)
  {
    hide Content;
    var iov' := iov[count + 1 := None];
    ContentSplit(iov', 1, count + 1, count + 2);
    ContentOne(iov', count + 1);
    ContentSame(iov, iov', 1, count + 1);
    assert Content(iov, 1, count + 1) + [] == Content(iov, 1, count + 1);
  }
}
