/** Whole runs of the cache by one process, against a plain map. */
module YacRun {
  import opened Bytes
  import opened YacSlots
  import opened YacStorage

  datatype Op =
    | Put(key: Key, data: seq<Byte>, flag: int, ttl: nat, add: bool, tv: nat)
    | Get(key: Key, tv: nat)
    | Del(key: Key, tv: nat)

  datatype Outcome = Stored(ok: bool) | Got(value: Option<(seq<Byte>, int)>) | Gone

  predicate ValidOp(op: Op) {
    && ValidKey(op.key) && op.tv >= 1
    && (op.Put? ==> |op.data| < MAX_VALUE)
  }

  /** The entry a successful update leaves. */
  function PutEntry(op: Op): Entry
    requires op.Put?
  {
    Entry(op.data, op.flag, if op.ttl != 0 then op.tv + op.ttl else 0)
  }

  /** What an operation with an outcome does to a plain map: an update that succeeded is taken, and
      what is deleted expires. */
  function Effect(m: map<Key, Entry>, op: Op, out: Outcome): map<Key, Entry> {
    if op.Put? && out == Stored(true) then m[op.key := PutEntry(op)]
    else if op.Del? then Deleted(m, op.key, 1)
    else m
  }

  /** The plain map after some operations with some outcomes. */
  function After(ops: seq<Op>, outs: seq<Outcome>): map<Key, Entry>
    requires |ops| == |outs|
  {
    if ops == [] then map[]
    else Effect(After(ops[..|ops| - 1], outs[..|ops| - 1]), ops[|ops| - 1], outs[|ops| - 1])
  }

  /** A hit agrees with the plain map: same length, checksum and flag, not expired or deleted; and
      the very same value when the checksum is collision-free. */
  ghost predicate HitAgrees(f: Functions, m: map<Key, Entry>, op: Op, out: Outcome) {
    op.Get? && out.Got? && out.value.Some? ==>
      && op.key in m && Live(m[op.key].expiry, op.tv)
      && |out.value.value.0| == |m[op.key].data| && f.crc(out.value.value.0) == f.crc(m[op.key].data)
      && out.value.value.1 == m[op.key].flag
      && (CollisionFree(f) ==> out.value.value.0 == m[op.key].data)
  }

  /** A lookup of a key after a successful update of it, before it expires, and likewise an add. */
  ghost predicate HitsAfterPut(put: Op, stored: Outcome, op: Op, out: Outcome) {
    (put.Put? && stored == Stored(true) && op.key == put.key && (put.ttl == 0 || op.tv < put.tv + put.ttl)) ==>
      && (op.Get? ==> out == Got(Some((put.data, put.flag))))
      && (op.Put? && op.add ==> out == Stored(false))
  }

  /** An outcome agrees with the plain map.  An update whose value some segment can hold fails only
      as an add, and only for the sake of a live entry: the key's own, or one whose probes meet its. */
  ghost predicate Agrees(c: Storage, m: map<Key, Entry>, op: Op, out: Outcome) {
    && HitAgrees(c.f, m, op, out)
    && |c.alloc.sizes| > 0 && c.slots.Length > 0
    && (op.Put? && c.alloc.RealSize(BlockSize(|op.data|)) != 0 && out != Stored(true) ==>
          op.add && exists k :: k in m && Live(m[k].expiry, op.tv) && Meet(c.f, c.slots.Length, op.key, k))
  }

  lemma AfterStep(ops: seq<Op>, outs: seq<Outcome>, op: Op, out: Outcome)
    requires |ops| == |outs|
    ensures After(ops + [op], outs + [out]) == Effect(After(ops, outs), op, out)
  {
    assert (ops + [op])[..|ops|] == ops && (outs + [out])[..|outs|] == outs;
  }

  /** After a successful update of its key, a lookup hits until it expires. */
  ghost predicate WouldHit(f: Functions, slots: seq<Slot>, mem: Memory, op: Op, out: Outcome)
    requires |slots| > 0 && BytesOk(slots) && ValidOp(op)
  {
    op.Put? && out == Stored(true) ==> forall tv: nat :: (op.ttl == 0 || tv < op.tv + op.ttl) ==>
      Lookup(f, slots, mem, op.key, tv) == Some((op.data, op.flag))
  }

  /** A lookup of the key itself, or any that misses: nothing that could disturb the key's block. */
  predicate Quiet(op: Op, out: Outcome, key: Key) {
    op.Get? && (op.key == key || out == Got(None))
  }

  ghost predicate QuietBetween(ops: seq<Op>, outs: seq<Outcome>, i: nat, j: nat) {
    i < j <= |outs| <= |ops| && forall k :: i < k < j ==> Quiet(ops[k], outs[k], ops[i].key)
  }

  /** Every update that nothing has disturbed since would still be hit. */
  ghost predicate StillHit(f: Functions, slots: seq<Slot>, mem: Memory, ops: seq<Op>, outs: seq<Outcome>) {
    && |slots| > 0 && BytesOk(slots)
    && forall i :: 0 <= i < |outs| && QuietBetween(ops, outs, i, |outs|) ==>
         ValidOp(ops[i]) && WouldHit(f, slots, mem, ops[i], outs[i])
  }

  /** Every lookup of a key after an update of it that nothing disturbed in between. */
  ghost predicate PairsHit(ops: seq<Op>, outs: seq<Outcome>) {
    forall i, j :: 0 <= i < j < |outs| && QuietBetween(ops, outs, i, j) ==> HitsAfterPut(ops[i], outs[i], ops[j], outs[j])
  }

  lemma QuietExtends(ops: seq<Op>, outs: seq<Outcome>, out: Outcome, i: nat, j: nat)
    requires |outs| < |ops| && i < j <= |outs|
    ensures QuietBetween(ops, outs + [out], i, j) <==> QuietBetween(ops, outs, i, j)
    ensures j == |outs| && QuietBetween(ops, outs + [out], i, j + 1) ==>
              QuietBetween(ops, outs, i, j) && Quiet(ops[j], out, ops[i].key)
  {
    var outs' := outs + [out];
    assert forall k :: 0 <= k < |outs| ==> outs'[k] == outs[k];
    assert outs'[|outs|] == out;
  }

  /** What one operation leaves hit: its own update, and before it what it did not disturb. */
  lemma StillHitStep(f: Functions, slots: seq<Slot>, mem: Memory, slots': seq<Slot>, mem': Memory,
                     ops: seq<Op>, outs: seq<Outcome>, out: Outcome)
    requires |outs| < |ops| && StillHit(f, slots, mem, ops, outs)
    requires |slots'| > 0 && BytesOk(slots') && ValidOp(ops[|outs|])
    requires WouldHit(f, slots', mem', ops[|outs|], out)
    requires ops[|outs|].Get? ==> GetKeeps(f, slots, mem, slots', mem', ops[|outs|].key, out)
    ensures StillHit(f, slots', mem', ops, outs + [out])
  {
    hide WouldHit, HitsAfterPut, BytesOk, QuietBetween, Quiet, GetKeeps;
    var n, outs' := |outs|, outs + [out];
    forall i | 0 <= i < |outs'| && QuietBetween(ops, outs', i, |outs'|)
      ensures ValidOp(ops[i]) && WouldHit(f, slots', mem', ops[i], outs'[i])
    {
      if i < n {
        QuietExtends(ops, outs, out, i, n);
        CarriedOver(f, slots, mem, slots', mem', ops[i], outs[i], ops[n], out);
      }
    }
  }

  /** What a lookup of a key leaves: the slots, all lookups of that key, and everything if it missed. */
  ghost predicate GetKeeps(f: Functions, slots: seq<Slot>, mem: Memory, slots': seq<Slot>, mem': Memory, key: Key, out: Outcome) {
    && |slots| > 0 && BytesOk(slots) && ValidKey(key)
    && slots' == slots && (out == Got(None) ==> mem' == mem)
    && forall tv: nat :: Lookup(f, slots, mem', key, tv) == Lookup(f, slots, mem, key, tv)
  }

  lemma CarriedOver(f: Functions, slots: seq<Slot>, mem: Memory, slots': seq<Slot>, mem': Memory,
                    put: Op, stored: Outcome, op: Op, out: Outcome)
    requires |slots| > 0 && BytesOk(slots) && ValidOp(put) && WouldHit(f, slots, mem, put, stored)
    requires Quiet(op, out, put.key) && GetKeeps(f, slots, mem, slots', mem', op.key, out)
    ensures WouldHit(f, slots', mem', put, stored)
  {
    hide Lookup, BytesOk;
  }

  lemma PairsHitStep(f: Functions, slots: seq<Slot>, mem: Memory, ops: seq<Op>, outs: seq<Outcome>, out: Outcome)
    requires |outs| < |ops| && StillHit(f, slots, mem, ops, outs) && PairsHit(ops, outs) && ValidOp(ops[|outs|])
    requires Answers(f, slots, mem, ops[|outs|], out)
    ensures PairsHit(ops, outs + [out])
  {
    hide WouldHit, HitsAfterPut, BytesOk, Lookup, QuietBetween, Answers;
    var n, outs' := |outs|, outs + [out];
    forall i, j | 0 <= i < j < |outs'| && QuietBetween(ops, outs', i, j)
      ensures HitsAfterPut(ops[i], outs'[i], ops[j], outs'[j])
    {
      QuietExtends(ops, outs, out, i, j);
      if j == n {
        WouldThenHits(f, slots, mem, ops[i], outs[i], ops[n], out);
      }
    }
  }

  /** What a lookup gives, and that an add of what it would find fails. */
  ghost predicate Answers(f: Functions, slots: seq<Slot>, mem: Memory, op: Op, out: Outcome)
    requires |slots| > 0 && BytesOk(slots) && ValidOp(op)
  {
    && (op.Get? ==> out == Got(Lookup(f, slots, mem, op.key, op.tv)))
    && (op.Put? && op.add && Lookup(f, slots, mem, op.key, op.tv).Some? ==> out == Stored(false))
  }

  lemma WouldThenHits(f: Functions, slots: seq<Slot>, mem: Memory, put: Op, stored: Outcome, op: Op, out: Outcome)
    requires |slots| > 0 && BytesOk(slots) && ValidOp(put) && ValidOp(op)
    requires WouldHit(f, slots, mem, put, stored)
    requires Answers(f, slots, mem, op, out)
    ensures HitsAfterPut(put, stored, op, out)
  {
  }

  /** One operation. */
  method Perform(c: Storage, op: Op) returns (out: Outcome)
    requires c.Valid() && ValidOp(op)
    modifies c.slots, c`mem, c`last, c.alloc`recycles, c.alloc`live, c.alloc.pos
    ensures c.Valid() && Agrees(c, old(c.last), op, out)
    ensures op.Put? == out.Stored? && op.Get? == out.Got? && op.Del? == out.Gone?
    ensures BytesOk(old(c.slots[..])) && Answers(c.f, old(c.slots[..]), old(c.mem), op, out)
    ensures op.Get? ==> GetKeeps(c.f, old(c.slots[..]), old(c.mem), c.slots[..], c.mem, op.key, out)
    ensures c.last == Effect(old(c.last), op, out)
    ensures BytesOk(c.slots[..]) && WouldHit(c.f, c.slots[..], c.mem, op, out)
  {
    hide Lookup, TableOk, Remembered, Aims, Succeeds, Meet;
    TableShape(c.f, c.slots[..]);
    match op {
      case Put(key, data, flag, ttl, add, tv) =>
        ghost var slots, mem, last := c.slots[..], c.mem, c.last;
        var ok;
        ghost var t;
        ok, t := c.Update(key, data, flag, ttl, add, tv);
        out := Stored(ok);
        if !ok && c.alloc.RealSize(BlockSize(|data|)) != 0 {
          RefusedForALiveOne(c.f, slots, mem, last, key, tv, t, |data|, add);
        }
      case Get(key, tv) =>
        var r := c.Find(key, tv);
        out := Got(r);
      case Del(key, tv) =>
        c.Delete(key, 0, tv);
        out := Gone;
    }
    TableShape(c.f, c.slots[..]);
  }

  /** Every run of a fresh cache agrees with the plain map at every step; and an update is hit by
      every lookup of its key until it expires, as long as nothing but lookups of that key, and
      lookups that miss, come between. */
  method Run(c: Storage, ops: seq<Op>) returns (outs: seq<Outcome>)
    requires c.Valid() && c.last == map[]
    requires forall i :: 0 <= i < |ops| ==> ValidOp(ops[i])
    modifies c.slots, c`mem, c`last, c.alloc`recycles, c.alloc`live, c.alloc.pos
    ensures c.Valid() && |outs| == |ops| && c.last == After(ops, outs)
    ensures forall i :: 0 <= i < |ops| ==> Agrees(c, After(ops[..i], outs[..i]), ops[i], outs[i])
    ensures PairsHit(ops, outs)
  {
    hide Lookup, TableOk, Remembered, Agrees, After, Effect, WouldHit, BytesOk, StillHit, PairsHit, GetKeeps, Answers;
    outs := [];
    TableShape(c.f, c.slots[..]);
    AfterNone(ops);
    NoneYet(c.f, c.slots[..], c.mem, ops);
    while |outs| < |ops|
      invariant c.Valid() && |outs| <= |ops| && c.slots.Length > 0 && BytesOk(c.slots[..])
      invariant c.last == After(ops[..|outs|], outs)
      invariant forall i :: 0 <= i < |outs| ==> Agrees(c, After(ops[..i], outs[..i]), ops[i], outs[i])
      invariant PairsHit(ops, outs) && StillHit(c.f, c.slots[..], c.mem, ops, outs)
    {
      var n := |outs|;
      ghost var before, slots, mem := outs, c.slots[..], c.mem;
      var out := Perform(c, ops[n]);
      PairsHitStep(c.f, slots, mem, ops, outs, out);
      StillHitStep(c.f, slots, mem, c.slots[..], c.mem, ops, outs, out);
      AfterStep(ops[..n], outs, ops[n], out);
      assert ops[..n + 1] == ops[..n] + [ops[n]];
      outs := outs + [out];
      assert forall i :: 0 <= i <= n ==> outs[..i] == before[..i];
      assert before[..n] == before;
    }
    assert ops[..|outs|] == ops;
  }

  lemma NoneYet(f: Functions, slots: seq<Slot>, mem: Memory, ops: seq<Op>)
    requires |slots| > 0 && BytesOk(slots)
    ensures PairsHit(ops, []) && StillHit(f, slots, mem, ops, [])
  {
  }

  lemma AfterNone(ops: seq<Op>)
    ensures After(ops[..0], []) == map[]
  {
  }
}
