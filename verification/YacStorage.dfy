/**
 The YAC cache run by one process: find, update and delete against a table of slots and blocks
 that a write anywhere may clobber.  It refines a map that remembers the last successful update
 of every key.
 */
module YacStorage {
  import opened Bytes
  import opened YacSlots
  import A = YacAllocator

  const HEADER := 16            // the size of a block's header, with one byte of data
  const MAX_VALUE := 0x100_0000 // the packed length has 24 bits for a value

  /** The last successful update of a key, and when it expires (0: never). */
  datatype Entry = Entry(data: seq<Byte>, flag: int, expiry: nat)

  /** What an expiry means. */
  predicate Live(expiry: nat, tv: nat) {
    expiry == 0 || tv < expiry
  }

  datatype Probe = Match(at: nat) | Free(at: nat) | Full

  /** The size asked of the allocator: a quarter more than the value needs.  It has room for the
      block's header and the value. */
  function BlockSize(size: nat): (r: nat)
    ensures r >= HEADER - 1 + size
  {
    HEADER + size * 5 / 4 - 1
  }

  /** Where an update ends: in the key's own slot, an empty one, or one given up by another key,
      because it is dead or the least recently used. */
  datatype Target = Own(at: nat) | Fresh(at: nat) | Dying(at: nat) | Oldest(at: nat)

  /** The slot a key's i-th probe sees. */
  function ProbeOf(f: Functions, slots: seq<Slot>, key: Key, i: nat): Slot
    requires |slots| > 0
  {
    slots[Path(f, |slots|, key, i)]
  }

  /** The v-th probe sees the slot that was accessed least recently: the last one on a tie with it,
      otherwise the first. */
  ghost predicate LeastRecent(f: Functions, slots: seq<Slot>, mem: Memory, key: Key, v: nat)
    requires |slots| > 0
  {
    var a := Accessed(ProbeOf(f, slots, key, v), mem);
    && v < 4
    && (forall m: nat :: m < 4 ==> a <= Accessed(ProbeOf(f, slots, key, m), mem))
    && (v < 3 ==> a < Accessed(ProbeOf(f, slots, key, 3), mem)
                  && forall m: nat :: m < v ==> a < Accessed(ProbeOf(f, slots, key, m), mem))
  }

  /** Which target an update of a key has. */
  ghost predicate Aims(f: Functions, slots: seq<Slot>, mem: Memory, key: Key, tv: nat, t: Target)
    requires |slots| > 0 && BytesOk(slots) && ValidKey(key)
  {
    var n := |slots|;
    && t.at < n
    && (t.Own? <==> !Absent(f, slots, key))
    && match t
       case Own(j) => slots[j].val != 0 && KLen(slots[j].len) <= |slots[j].key| && KeyOf(slots[j]) == key
       case Fresh(j) => slots[j].val == 0 && OnPath(f, slots, key, j)
       case Dying(j) =>
         && FilledTo(f, slots, key, 4)
         && exists v: nat :: v < 3 && j == Path(f, n, key, v) && FirstDead(f, slots, mem, key, tv, v)
       case Oldest(j) =>
         && FilledTo(f, slots, key, 4)
         && (forall m: nat :: m < 3 ==> !Dead(ProbeOf(f, slots, key, m), mem, tv))
         && exists v: nat :: j == Path(f, n, key, v) && LeastRecent(f, slots, mem, key, v)
  }

  ghost predicate FirstDead(f: Functions, slots: seq<Slot>, mem: Memory, key: Key, tv: nat, v: nat)
    requires |slots| > 0
  {
    && Dead(ProbeOf(f, slots, key, v), mem, tv)
    && forall m: nat :: m < v ==> !Dead(ProbeOf(f, slots, key, m), mem, tv)
  }

  /** The block of a slot still has the slot's checksum. */
  predicate Checks(f: Functions, mem: Memory, k: Slot) {
    k.crc == f.crc(ReadData(BlockAt(mem, k.val), VLen(k.len)))
  }

  /** Whether a slot in use can be rewritten: an add leaves one alone that still checks and has not
      expired; and without room for a new block the old one must check and be large enough. */
  predicate Rewritable(f: Functions, mem: Memory, k: Slot, size: nat, add: bool, tv: nat, room: bool) {
    && !(add && Live(k.ttl, tv) && Checks(f, mem, k))
    && (room || (k.size >= size && Checks(f, mem, k)))
  }

  /** When an update succeeds. */
  predicate Succeeds(f: Functions, slots: seq<Slot>, mem: Memory, t: Target, size: nat, add: bool, tv: nat, room: bool)
    requires t.at < |slots|
  {
    match t
    case Own(j) => Rewritable(f, mem, slots[j], size, add, tv, room)
    case Fresh(_) => room
    case Dying(_) => room
    case Oldest(j) => Rewritable(f, mem, slots[j], size, add, tv, room)
  }

  /** A slot written for an entry. */
  ghost predicate Holds(f: Functions, s: Slot, key: Key, e: Entry) {
    && s.len == Pack(|key|, |e.data|) && s.flag == e.flag && s.crc == f.crc(e.data) && s.ttl == e.expiry
  }

  /** Every slot is the last update of its key. */
  ghost predicate Remembered(f: Functions, slots: seq<Slot>, last: map<Key, Entry>) {
    forall j :: 0 <= j < |slots| && slots[j].val != 0 && KLen(slots[j].len) <= |slots[j].key| ==>
      && KeyOf(slots[j]) in last
      && Holds(f, slots[j], KeyOf(slots[j]), last[KeyOf(slots[j])])
  }

  lemma PackParts(klen: nat, vlen: nat)
    requires klen < 256
    ensures KLen(Pack(klen, vlen)) == klen && VLen(Pack(klen, vlen)) == vlen
  {
  }

  /** Deleting leaves the entry, expired; with a ttl the home slot is given that long. */
  function Deleted(last: map<Key, Entry>, key: Key, expiry: nat): map<Key, Entry> {
    if key in last then last[key := last[key].(expiry := expiry)] else last
  }

  /** The expiry a deletion sets: with a ttl the key is given that long when it is found in its home
      slot, and expires at once anywhere else on its path. */
  function DeleteExpiry(f: Functions, slots: seq<Slot>, key: Key, ttl: nat, tv: nat): nat
    requires |slots| > 0 && BytesOk(slots) && ValidKey(key)
  {
    if Locate(f, slots, key) == Some(Path(f, |slots|, key, 0)) && ttl != 0 then ttl + tv else 1
  }

  lemma EmptyHome(f: Functions, slots: seq<Slot>, key: Key)
    requires |slots| > 0 && BytesOk(slots) && ValidKey(key) && slots[Path(f, |slots|, key, 0)].val == 0
    ensures Locate(f, slots, key) == None
  {
  }

  lemma SegmentIs(alloc: A.Allocator, addr: nat, size: nat, hash: nat, seg: nat)
    requires |alloc.sizes| == |alloc.base| && seg < |alloc.sizes| && alloc.Ahead(hash, seg) < 4
    requires alloc.base[seg] <= addr && addr + size <= alloc.base[seg] + alloc.sizes[seg]
    ensures A.Holds(alloc, addr, size, hash, seg)
  {
  }

  lemma NotAbsent(f: Functions, slots: seq<Slot>, key: Key, j: nat)
    requires BytesOk(slots) && j < |slots| && slots[j].val != 0 && KLen(slots[j].len) <= |slots[j].key|
    requires KeyOf(slots[j]) == key
    ensures !Absent(f, slots, key)
  {
  }

  lemma AbsentAt(f: Functions, slots: seq<Slot>, key: Key, j: nat)
    requires |slots| > 0 && BytesOk(slots) && ValidKey(key) && j < |slots| && Absent(f, slots, key)
    ensures slots[j].val != 0 && KLen(slots[j].len) <= |slots[j].key| ==> KeyOf(slots[j]) != key
  {
  }

  /** Two keys whose probes meet. */
  ghost predicate Meet(f: Functions, n: nat, a: Key, b: Key)
    requires n > 0
  {
    a == b || exists i: nat, j: nat :: i < 4 && j < 4 && Path(f, n, a, i) == Path(f, n, b, j)
  }

  /** With room for a block, only an add is ever refused, and only for the sake of a live value: the
      key's own, or that of a key whose probes meet its own. */
  lemma RefusedForALiveOne(f: Functions, slots: seq<Slot>, mem: Memory, last: map<Key, Entry>, key: Key, tv: nat,
                           t: Target, size: nat, add: bool)
    requires TableOk(f, slots) && Remembered(f, slots, last) && ValidKey(key)
    requires Aims(f, slots, mem, key, tv, t) && !Succeeds(f, slots, mem, t, size, add, tv, true)
    ensures add && exists k :: k in last && Live(last[k].expiry, tv) && Meet(f, |slots|, key, k)
  {
    hide Dead, LeastRecent, Checks, Absent;
    var v: nat := 0;
    if t.Oldest? {
      v :| t.at == Path(f, |slots|, key, v) && LeastRecent(f, slots, mem, key, v);
      OldestIsProbed(f, slots, mem, key, v);
    }
    var s := slots[t.at];
    assert s.val != 0 && GoodSlot(f, s);
    var k := KeyOf(s);
    assert k in last && last[k].expiry == s.ttl;
    if t.Oldest? {
      assert OnPath(f, slots, k, t.at);
      var i: nat :| i < 4 && Path(f, |slots|, k, i) == t.at && FilledTo(f, slots, k, i);
      assert Meet(f, |slots|, key, k);
    }
  }

  lemma OldestIsProbed(f: Functions, slots: seq<Slot>, mem: Memory, key: Key, v: nat)
    requires |slots| > 0 && LeastRecent(f, slots, mem, key, v)
    ensures v < 4
  {
  }

  /** An update has one target. */
  lemma OneTarget(f: Functions, slots: seq<Slot>, mem: Memory, key: Key, tv: nat, t: Target, t': Target)
    requires TableOk(f, slots) && ValidKey(key)
    requires Aims(f, slots, mem, key, tv, t) && Aims(f, slots, mem, key, tv, t')
    ensures t == t'
  {
    hide Dead, Absent, Accessed;
    if t.Fresh? {
      FirstFree(f, slots, key, t.at);
    } else if t'.Fresh? {
      FirstFree(f, slots, key, t'.at);
    } else if t.Oldest? && t'.Oldest? {
      var v: nat :| t.at == Path(f, |slots|, key, v) && LeastRecent(f, slots, mem, key, v);
      var v': nat :| t'.at == Path(f, |slots|, key, v') && LeastRecent(f, slots, mem, key, v');
      assert v == v';
    } else if t.Dying? && t'.Dying? {
      var v: nat :| v < 3 && t.at == Path(f, |slots|, key, v) && FirstDead(f, slots, mem, key, tv, v);
      var v': nat :| v' < 3 && t'.at == Path(f, |slots|, key, v') && FirstDead(f, slots, mem, key, tv, v');
      assert v == v';
    }
  }

  /** A free slot on a path is the only one with the slots before it occupied. */
  lemma FirstFree(f: Functions, slots: seq<Slot>, key: Key, j: nat)
    requires |slots| > 0 && j < |slots| && slots[j].val == 0 && OnPath(f, slots, key, j)
    ensures !FilledTo(f, slots, key, 4)
    ensures forall j' :: 0 <= j' < |slots| && slots[j'].val == 0 && OnPath(f, slots, key, j') ==> j' == j
  {
  }

  /** Any slot a table step may end in: the entry is stored for the key. */
  ghost predicate Written(f: Functions, s: Slot, key: Key, e: Entry) {
    ValidKey(key) && s.val != 0 && GoodSlot(f, s) && KeyOf(s) == key && Holds(f, s, key, e)
  }

  lemma StoreRemembers(f: Functions, slots: seq<Slot>, last: map<Key, Entry>, j: nat, s: Slot, key: Key, e: Entry)
    requires TableOk(f, slots) && Remembered(f, slots, last) && j < |slots|
    requires Written(f, s, key, e) && OnPath(f, slots, key, j)
    requires Absent(f, slots, key) || (slots[j].val != 0 && KeyOf(slots[j]) == key)
    ensures TableOk(f, slots[j := s]) && Remembered(f, slots[j := s], last[key := e])
  {
    StoreKeepsTable(f, slots, j, s, key);
  }

  class Storage {
    const f: Functions
    const slots: array<Slot>
    const alloc: A.Allocator
    var mem: Memory
    ghost var last: map<Key, Entry>

    ghost predicate Valid()
      reads this, slots, alloc, alloc.pos
    {
      alloc.Valid() && TableOk(f, slots[..]) && Remembered(f, slots[..], last)
    }

    constructor (f: Functions, size: nat, alloc: A.Allocator)
      requires size > 0 && alloc.Valid()
      ensures Valid() && fresh(slots) && this.f == f && this.alloc == alloc
      ensures last == map[] && slots.Length == size
    {
      this.f, this.alloc := f, alloc;
      slots := new Slot[size](_ => EMPTY);
      mem, last := map[], map[];
    }

    /** Write a block, or the access time in its header.  The memory of any other block may change:
        blocks overlap once a segment started over, and a reused block may be written past its end. */
    method WriteBlock(addr: nat, b: Block)
      modifies this`mem
      ensures BlockAt(mem, addr) == b
    {
      var touched: Memory := mem[addr := b];
      assert addr in touched && touched[addr] == b;
      var after: Memory :| addr in after && after[addr] == b;
      mem := after;
    }

    /** A hit carries the last successful update of the key, and that has not expired.  It leaves all
        further lookups of the key as they were; a miss writes nothing. */
    method Find(key: Key, tv: nat) returns (r: Option<(seq<Byte>, int)>)
      requires Valid() && ValidKey(key)
      modifies this`mem
      ensures Valid()
      ensures r == old(Lookup(f, slots[..], mem, key, tv))
      ensures r.Some? ==>
                && key in last
                && |r.value.0| == |last[key].data| && f.crc(r.value.0) == f.crc(last[key].data)
                && r.value.1 == last[key].flag && Live(last[key].expiry, tv)
      ensures r.None? ==> mem == old(mem)
      ensures r.Some? ==>
                var at := Locate(f, slots[..], key);
                at.Some? && BlockAt(mem, slots[at.value].val) == old(BlockAt(mem, slots[at.value].val)).(atime := tv)
      ensures forall tv': nat :: Lookup(f, slots[..], mem, key, tv') == old(Lookup(f, slots[..], mem, key, tv'))
    {
      hide Lookup, Verify, Remembered, Holds, TableOk, Locate;
      TableShape(f, slots[..]);
      HitIsLast(f, slots[..], mem, last, key, tv);
      LookupIs(f, slots[..], mem, key, tv);
      var at := LocateSlot(key);
      if at.None? {
        return None;
      }
      var k := slots[at.value];
      r := Verify(f, mem, k, tv);
      if r.Some? {
        ghost var was := mem;
        WriteBlock(k.val, BlockAt(mem, k.val).(atime := tv));
        TouchKeeps(f, slots[..], was, mem, key, at.value, tv);
      }
    }

    /** The probes of a lookup. */
    method LocateSlot(key: Key) returns (r: Option<nat>)
      requires slots.Length > 0 && BytesOk(slots[..]) && ValidKey(key)
      ensures r == Locate(f, slots[..], key)
    {
      hide Locate;
      var n := slots.Length;
      var i, j := 0, Path(f, n, key, 0);
      if slots[j].val == 0 {
        EmptyHome(f, slots[..], key);
        return None;
      }
      while i < 4
        invariant 0 <= i <= 4
        invariant forall m: nat :: m < i ==> !Matches(f, slots[Path(f, n, key, m)], key)
      {
        j := Path(f, n, key, i);
        if Matches(f, slots[j], key) {
          AtStep(f, slots[..], key, i);
          return Some(j);
        }
        i := i + 1;
      }
      NoStep(f, slots[..], key);
      r := None;
    }

    /** The four probes of an update: the key's own slot, the first empty one, or neither. */
    method FindSlot(key: Key) returns (r: Probe)
      requires Valid() && ValidKey(key)
      ensures match r
              case Match(j) => j < slots.Length && slots[j].val != 0 && KLen(slots[j].len) <= |slots[j].key|
                               && KeyOf(slots[j]) == key
              case Free(j) => j < slots.Length && slots[j].val == 0 && OnPath(f, slots[..], key, j)
                              && Absent(f, slots[..], key)
              case Full => Absent(f, slots[..], key) && FilledTo(f, slots[..], key, 4)
    {
      var n, i := slots.Length, 0;
      while i < 4
        invariant 0 <= i <= 4 && FilledTo(f, slots[..], key, i)
        invariant forall m: nat :: m < i ==> !Matches(f, slots[Path(f, n, key, m)], key)
      {
        var j := Path(f, n, key, i);
        if slots[j].val == 0 {
          NotProbedIsAbsent(f, slots[..], key, i);
          return Free(j);
        }
        if Matches(f, slots[j], key) {
          return Match(j);
        }
        i := i + 1;
      }
      NotProbedIsAbsent(f, slots[..], key, 4);
      r := Full;
    }

    /** Which probe of a full path gives up its slot: the first of the first three that has
        expired or whose block no longer agrees with it (`dead`), else the one accessed least
        recently of all four. */
    method PickVictim(key: Key, tv: nat) returns (v: nat, dead: bool)
      requires slots.Length > 0
      ensures v < 4
      ensures if dead then v < 3 && FirstDead(f, slots[..], mem, key, tv, v)
              else && (forall m: nat :: m < 3 ==> !Dead(ProbeOf(f, slots[..], key, m), mem, tv))
                   && LeastRecent(f, slots[..], mem, key, v)
    {
      v := 3;
      var oldest := Accessed(Probed(key, 3), mem);
      var i := 0;
      while i < 3
        invariant 0 <= i <= 3 && v < 4 && oldest == Accessed(ProbeOf(f, slots[..], key, v), mem)
        invariant v < 3 ==> v < i && oldest < Accessed(ProbeOf(f, slots[..], key, 3), mem)
        invariant forall m: nat :: m < i ==> !Dead(ProbeOf(f, slots[..], key, m), mem, tv)
        invariant forall m: nat :: m < i ==> oldest <= Accessed(ProbeOf(f, slots[..], key, m), mem)
        invariant v < 3 ==> forall m: nat :: m < v ==> oldest < Accessed(ProbeOf(f, slots[..], key, m), mem)
      {
        var s := Probed(key, i);
        if (s.ttl != 0 && s.ttl <= tv) || s.len != BlockAt(mem, s.val).len {
          return i, true;
        } else if BlockAt(mem, s.val).atime < oldest {
          oldest := BlockAt(mem, s.val).atime;
          v := i;
        }
        i := i + 1;
      }
      dead := false;
    }

    /** The entry an update stores. */
    function NewEntry(data: seq<Byte>, flag: int, ttl: nat, tv: nat): Entry {
      Entry(data, flag, if ttl != 0 then tv + ttl else 0)
    }

    /** Slot j now holds the entry for the key, in a block that holds it too; no other slot changed. */
    twostate predicate Replaced(j: nat, key: Key, e: Entry, tv: nat)
      requires slots.Length == |old(slots[..])| && j < slots.Length
      reads this, slots
    {
      && slots[..] == old(slots[..])[j := slots[j]]
      && Written(f, slots[j], key, e)
      && BlockAt(mem, slots[j].val) == Block(tv, Pack(|key|, |e.data|), e.data)
    }

    /** The block lies in one segment, less than four ahead of the one the hash names. */
    ghost predicate InSegment(addr: nat, size: nat, hash: nat) {
      exists seg: nat :: seg < |alloc.sizes| && A.Holds(alloc, addr, size, hash, seg)
    }

    /** A fresh block for slot j; `k` is the copy of a slot whose other key bytes carry over.
        Fails only when no segment could hold the block. */
    method Allocate(j: nat, k: Slot, key: Key, data: seq<Byte>, flag: int, ttl: nat, tv: nat) returns (ok: bool)
      requires alloc.Valid() && j < slots.Length && ValidKey(key) && |data| < MAX_VALUE && |k.key| == KEY_BYTES
      modifies slots, this`mem, alloc`recycles, alloc`live, alloc.pos
      ensures alloc.Valid() && ok == (alloc.RealSize(BlockSize(|data|)) != 0)
      ensures ok ==> Replaced(j, key, NewEntry(data, flag, ttl, tv), tv)
      ensures ok ==> slots[j].size == alloc.RealSize(BlockSize(|data|)) >= HEADER - 1 + |data|
      ensures ok ==> InSegment(slots[j].val, slots[j].size, f.h1(key))
      ensures !ok ==> slots[..] == old(slots[..])
    {
      var room := alloc.RealSize(BlockSize(|data|));
      if room == 0 {
        return false;
      }
      var val;
      ghost var seg, off;
      val, seg, off := alloc.Alloc(room, f.h1(key));
      SegmentIs(alloc, val, room, f.h1(key), seg);
      WriteBlock(val, Block(tv, Pack(|key|, |data|), data));
      PackParts(|key|, |data|);
      slots[j] := Slot(f.h1(key), f.crc(data), if ttl != 0 then tv + ttl else 0, Pack(|key|, |data|), flag,
                       room, val, Stored(key, k.key));
      ok := true;
    }

    /** The do_update label: reuse the block of `k` when its contents still check and its size is
        at least the value's, else allocate.  With `add`, an entry that still checks and has not
        expired is left alone. */
    method DoUpdate(j: nat, k: Slot, key: Key, data: seq<Byte>, flag: int, ttl: nat, add: bool, tv: nat)
        returns (ok: bool)
      requires alloc.Valid() && j < slots.Length && ValidKey(key) && |data| < MAX_VALUE
      requires |k.key| == KEY_BYTES && k.val != 0 && k.h == f.h1(key)
      modifies slots, this`mem, alloc`recycles, alloc`live, alloc.pos
      ensures alloc.Valid()
      ensures ok ==> Replaced(j, key, NewEntry(data, flag, ttl, tv), tv)
      ensures !ok ==> slots[..] == old(slots[..])
      ensures ok == Rewritable(f, old(mem), k, |data|, add, tv, alloc.RealSize(BlockSize(|data|)) != 0)
      ensures ok ==> if k.size >= |data| && Checks(f, old(mem), k) then slots[j].val == k.val && slots[j].size == k.size
                     else slots[j].size == alloc.RealSize(BlockSize(|data|))
    {
      var isValid := Checks(f, mem, k);
      if add && (k.ttl == 0 || k.ttl > tv) && isValid {
        return false;
      }
      if k.size >= |data| && isValid {
        WriteBlock(k.val, Block(tv, Pack(|key|, |data|), data));
        PackParts(|key|, |data|);
        slots[j] := k.(ttl := if ttl != 0 then tv + ttl else 0, crc := f.crc(data), flag := flag,
                       key := Stored(key, k.key), len := Pack(|key|, |data|));
        ok := true;
      } else {
        ok := Allocate(j, k, key, data, flag, ttl, tv);
      }
    }

    /** Where an update of a key ends. */
    method Aim(key: Key, tv: nat) returns (t: Target)
      requires Valid() && ValidKey(key)
      ensures Aims(f, slots[..], mem, key, tv, t)
    {
      hide Remembered, TableOk, LeastRecent, FirstDead, Dead, FilledTo, Absent, OnPath;
      TableShape(f, slots[..]);
      var r := FindSlot(key);
      match r {
        case Match(j) =>
          NotAbsent(f, slots[..], key, j);
          t := Own(j);
        case Free(j) =>
          t := Fresh(j);
        case Full =>
          var v, dead := PickVictim(key, tv);
          var j := Path(f, slots.Length, key, v);
          t := if dead then Dying(j) else Oldest(j);
      }
    }

    /** Carry an update out where it ends.  A slot given up by a dead key gets a copy of the last one
        probed, the least recently used one keeps its own. */
    method Settle(t: Target, key: Key, data: seq<Byte>, flag: int, ttl: nat, add: bool, tv: nat) returns (ok: bool)
      requires alloc.Valid() && slots.Length > 0 && BytesOk(slots[..]) && ValidKey(key) && |data| < MAX_VALUE
      requires t.at < slots.Length && (t.Own? || t.Oldest? ==> slots[t.at].val != 0)
      requires t.Own? ==> slots[t.at].h == f.h1(key)
      modifies slots, this`mem, alloc`recycles, alloc`live, alloc.pos
      ensures alloc.Valid()
      ensures ok ==> Replaced(t.at, key, NewEntry(data, flag, ttl, tv), tv)
      ensures !ok ==> slots[..] == old(slots[..])
      ensures ok == Succeeds(f, old(slots[..]), old(mem), t, |data|, add, tv, alloc.RealSize(BlockSize(|data|)) != 0)
    {
      hide Written;
      match t {
        case Own(j) => ok := DoUpdate(j, slots[j], key, data, flag, ttl, add, tv);
        case Fresh(j) => ok := Allocate(j, slots[j], key, data, flag, ttl, tv);
        case Dying(j) => ok := Allocate(j, Probed(key, 3), key, data, flag, ttl, tv);
        case Oldest(j) => ok := DoUpdate(j, slots[j].(h := f.h1(key)), key, data, flag, ttl, add, tv);
      }
    }

    /** Store a value.  Whether that succeeds follows from where it ends.  A success makes it the last
        update of the key, and a lookup right after is a hit until it expires, whatever the write
        clobbered.  Occupied slots stay occupied. */
    method Update(key: Key, data: seq<Byte>, flag: int, ttl: nat, add: bool, tv: nat) returns (ok: bool, ghost t: Target)
      requires Valid() && ValidKey(key) && |data| < MAX_VALUE
      modifies slots, this`mem, this`last, alloc`recycles, alloc`live, alloc.pos
      ensures Valid()
      ensures Aims(f, old(slots[..]), old(mem), key, tv, t)
      ensures ok == Succeeds(f, old(slots[..]), old(mem), t, |data|, add, tv, alloc.RealSize(BlockSize(|data|)) != 0)
      ensures ok ==> Replaced(t.at, key, NewEntry(data, flag, ttl, tv), tv)
      ensures !ok ==> slots[..] == old(slots[..]) && last == old(last)
      ensures ok ==> last == old(last)[key := NewEntry(data, flag, ttl, tv)]
      ensures ok ==> forall tv': nat :: Live(NewEntry(data, flag, ttl, tv).expiry, tv') ==>
                       Lookup(f, slots[..], mem, key, tv') == Some((data, flag))
      ensures forall j :: 0 <= j < slots.Length && old(slots[j].val) != 0 ==> slots[j].val != 0
      ensures add && old(Lookup(f, slots[..], mem, key, tv)).Some? ==> !ok
    {
      hide Remembered, TableOk, Absent, Lookup, Aims, Succeeds, OnPath;
      TableShape(f, slots[..]);
      ghost var e, before, mem0 := NewEntry(data, flag, ttl, tv), slots[..], mem;
      var target := Aim(key, tv);
      t := target;
      TargetOk(f, before, mem, key, tv, t);
      ok := Settle(target, key, data, flag, ttl, add, tv);
      AddOfLive(f, before, mem0, key, tv, t, |data|, alloc.RealSize(BlockSize(|data|)) != 0);
      if ok {
        StoreRemembers(f, before, last, t.at, slots[t.at], key, e);
        last := last[key := e];
        FreshHit(f, slots[..], mem, key, t.at, e, tv);
      }
    }

    /** Forget a key: with a ttl of 0 no lookup hits until the next update; otherwise its home
        slot is given that long, and any other slot expires at once. */
    method Delete(key: Key, ttl: nat, tv: nat)
      requires Valid() && ValidKey(key)
      modifies slots, this`last
      ensures Valid()
      ensures var home := old(Locate(f, slots[..], key)) == Some(Path(f, slots.Length, key, 0));
              forall tv': nat :: tv' >= 1 ==>
                Lookup(f, slots[..], mem, key, tv') ==
                if home && ttl != 0 && tv' < ttl + tv then old(Found(f, slots[..], mem, key)) else None
      ensures last == Deleted(old(last), key, DeleteExpiry(f, old(slots[..]), key, ttl, tv))
      ensures ttl == 0 ==> last == Deleted(old(last), key, 1)
      ensures forall j :: 0 <= j < slots.Length ==> slots[j] == old(slots[j]).(ttl := slots[j].ttl)
    {
      hide Remembered, TableOk, Absent, Lookup, Locate;
      TableShape(f, slots[..]);
      LocateFinds(f, slots[..], key, Path(f, slots.Length, key, 0));
      var r := FindSlot(key);
      ghost var expiry := 1;
      if r.Match? {
        var j := r.at;
        OwnSlot(f, slots[..], key, j);
        LocateFinds(f, slots[..], key, j);
        var home := Path(f, slots.Length, key, 0);
        var t := if j == home && ttl != 0 then ttl + tv else 1;
        expiry := t;
        ExpireKeeps(f, slots[..], last, j, key, t);
        ExpirySet(f, slots[..], mem, key, j, t);
        slots[j] := slots[j].(ttl := t);
        last := Deleted(last, key, expiry);
      } else {
        AbsentAt(f, slots[..], key, Path(f, slots.Length, key, 0));
        ExpireAbsent(f, slots[..], last, key, expiry);
        AbsentMissesAll(f, slots[..], mem, key);
        last := Deleted(last, key, expiry);
      }
    }

    /** The slot a key's i-th probe sees. */
    function Probed(key: Key, i: nat): Slot
      requires slots.Length > 0
      reads slots
    {
      slots[Path(f, slots.Length, key, i)]
    }
  }

  /** When a slot's block was last accessed. */
  function Accessed(s: Slot, mem: Memory): nat {
    BlockAt(mem, s.val).atime
  }

  /** A slot that has expired, or whose block disagrees with it about the lengths. */
  predicate Dead(s: Slot, mem: Memory, tv: nat) {
    (s.ttl != 0 && s.ttl <= tv) || s.len != BlockAt(mem, s.val).len
  }

  /** When no probe matches, a lookup finds nothing. */
  lemma NoStep(f: Functions, slots: seq<Slot>, key: Key)
    requires |slots| > 0 && BytesOk(slots) && ValidKey(key)
    requires forall m: nat :: m < 4 ==> !Matches(f, slots[Path(f, |slots|, key, m)], key)
    ensures Locate(f, slots, key) == None
  {
  }

  /** The first matching probe is where a lookup settles. */
  lemma AtStep(f: Functions, slots: seq<Slot>, key: Key, i: nat)
    requires |slots| > 0 && BytesOk(slots) && ValidKey(key) && i < 4
    requires slots[Path(f, |slots|, key, 0)].val != 0
    requires forall m: nat :: m < i ==> !Matches(f, slots[Path(f, |slots|, key, m)], key)
    requires Matches(f, slots[Path(f, |slots|, key, i)], key)
    ensures Locate(f, slots, key) == Some(Path(f, |slots|, key, i))
  {
    assert i == 0 || i == 1 || i == 2 || i == 3;
  }

  lemma LookupIs(f: Functions, slots: seq<Slot>, mem: Memory, key: Key, tv: nat)
    requires |slots| > 0 && BytesOk(slots) && ValidKey(key)
    ensures var at := Locate(f, slots, key);
            Lookup(f, slots, mem, key, tv) == if at.Some? then Verify(f, mem, slots[at.value], tv) else None
  {
  }

  /** The access time of a key's block has no part in looking it up. */
  lemma TouchKeeps(f: Functions, slots: seq<Slot>, mem: Memory, mem': Memory, key: Key, j: nat, t: nat)
    requires |slots| > 0 && BytesOk(slots) && ValidKey(key)
    requires Locate(f, slots, key) == Some(j)
    requires BlockAt(mem', slots[j].val) == BlockAt(mem, slots[j].val).(atime := t)
    ensures forall tv: nat :: Lookup(f, slots, mem', key, tv) == Lookup(f, slots, mem, key, tv)
  {
    hide Locate;
  }

  lemma HitIsLast(f: Functions, slots: seq<Slot>, mem: Memory, last: map<Key, Entry>, key: Key, tv: nat)
    requires TableOk(f, slots) && Remembered(f, slots, last) && ValidKey(key)
    ensures var r := Lookup(f, slots, mem, key, tv);
            r.Some? ==>
              && key in last
              && |r.value.0| == |last[key].data| && f.crc(r.value.0) == f.crc(last[key].data)
              && r.value.1 == last[key].flag && Live(last[key].expiry, tv)
  {
    var at := Locate(f, slots, key);
    if at.Some? {
      LocateFinds(f, slots, key, at.value);
      if key in last {
        PackParts(|key|, |last[key].data|);
      }
    }
  }

  /** No two values of the same length share a checksum. */
  ghost predicate CollisionFree(f: Functions) {
    forall a, b :: |a| == |b| && f.crc(a) == f.crc(b) ==> a == b
  }

  /** With a collision-free checksum the cache is exact: a hit is the last update's value. */
  lemma HitIsExact(c: Storage, key: Key, tv: nat)
    requires c.Valid() && ValidKey(key) && CollisionFree(c.f)
    ensures var r := Lookup(c.f, c.slots[..], c.mem, key, tv);
            r.Some? ==> key in c.last && Live(c.last[key].expiry, tv) && r.value == (c.last[key].data, c.last[key].flag)
  {
    HitIsLast(c.f, c.slots[..], c.mem, c.last, key, tv);
  }

  // ------------------------------------------------------------------- facts about the table

  lemma TableShape(f: Functions, slots: seq<Slot>)
    requires TableOk(f, slots)
    ensures |slots| > 0 && BytesOk(slots)
  {
  }

  /** The slot that holds a key. */
  lemma OwnSlot(f: Functions, slots: seq<Slot>, key: Key, j: nat)
    requires TableOk(f, slots) && ValidKey(key) && j < |slots|
    requires KLen(slots[j].len) <= |slots[j].key| && slots[j].val != 0 && KeyOf(slots[j]) == key
    ensures slots[j].h == f.h1(key) && OnPath(f, slots, key, j)
  {
  }

  lemma FilledIsOnPath(f: Functions, slots: seq<Slot>, key: Key, i: nat)
    requires |slots| > 0 && i < 4 && FilledTo(f, slots, key, 4)
    ensures slots[Path(f, |slots|, key, i)].val != 0
    ensures OnPath(f, slots, key, Path(f, |slots|, key, i))
  {
    assert FilledTo(f, slots, key, i);
  }

  lemma AbsentMisses(f: Functions, slots: seq<Slot>, mem: Memory, key: Key, tv: nat)
    requires TableOk(f, slots) && ValidKey(key) && Absent(f, slots, key)
    ensures Lookup(f, slots, mem, key, tv) == None
  {
    var at := Locate(f, slots, key);
    if at.Some? {
      LocateFinds(f, slots, key, at.value);
    }
  }

  lemma AbsentMissesAll(f: Functions, slots: seq<Slot>, mem: Memory, key: Key)
    requires TableOk(f, slots) && ValidKey(key) && Absent(f, slots, key)
    ensures forall tv: nat :: Lookup(f, slots, mem, key, tv) == None
  {
    forall tv: nat ensures Lookup(f, slots, mem, key, tv) == None {
      AbsentMisses(f, slots, mem, key, tv);
    }
  }

  /** A target is a slot the key may be stored in. */
  lemma TargetOk(f: Functions, slots: seq<Slot>, mem: Memory, key: Key, tv: nat, t: Target)
    requires TableOk(f, slots) && ValidKey(key) && Aims(f, slots, mem, key, tv, t)
    ensures t.at < |slots| && OnPath(f, slots, key, t.at)
    ensures t.Own? || t.Oldest? ==> slots[t.at].val != 0
    ensures t.Own? ==> slots[t.at].h == f.h1(key)
    ensures Absent(f, slots, key)
            || (slots[t.at].val != 0 && KLen(slots[t.at].len) <= |slots[t.at].key| && KeyOf(slots[t.at]) == key)
  {
    hide Absent, Dead, Accessed, OnPath;
    match t
    case Own(j) => OwnSlot(f, slots, key, j);
    case Fresh(_) =>
    case Dying(j) =>
      var v: nat :| v < 3 && j == Path(f, |slots|, key, v) && FirstDead(f, slots, mem, key, tv, v);
      FilledIsOnPath(f, slots, key, v);
    case Oldest(j) =>
      var v: nat :| j == Path(f, |slots|, key, v) && LeastRecent(f, slots, mem, key, v);
      FilledIsOnPath(f, slots, key, v);
  }

  /** An add of a key that a lookup would hit is refused. */
  lemma AddOfLive(f: Functions, slots: seq<Slot>, mem: Memory, key: Key, tv: nat, t: Target, size: nat, room: bool)
    requires TableOk(f, slots) && ValidKey(key) && Aims(f, slots, mem, key, tv, t)
    ensures Lookup(f, slots, mem, key, tv).Some? ==> !Succeeds(f, slots, mem, t, size, true, tv, room)
  {
    hide Dead, Accessed, Absent;
    if t.Own? {
      LocateFinds(f, slots, key, t.at);
    } else {
      AbsentMisses(f, slots, mem, key, tv);
    }
  }

  /** A slot just written, with its block, is a hit until it expires. */
  lemma FreshHit(f: Functions, slots: seq<Slot>, mem: Memory, key: Key, j: nat, e: Entry, at: nat)
    requires TableOk(f, slots) && j < |slots| && Written(f, slots[j], key, e)
    requires BlockAt(mem, slots[j].val) == Block(at, Pack(|key|, |e.data|), e.data)
    ensures forall tv: nat :: Live(e.expiry, tv) ==> Lookup(f, slots, mem, key, tv) == Some((e.data, e.flag))
  {
    LocateFinds(f, slots, key, j);
    PackParts(|key|, |e.data|);
  }

  /** Changing when the slot of a key expires. */
  lemma ExpireKeeps(f: Functions, slots: seq<Slot>, last: map<Key, Entry>, j: nat, key: Key, t: nat)
    requires TableOk(f, slots) && Remembered(f, slots, last) && ValidKey(key) && j < |slots|
    requires slots[j].val != 0 && KLen(slots[j].len) <= |slots[j].key| && KeyOf(slots[j]) == key
    ensures var slots' := slots[j := slots[j].(ttl := t)];
            TableOk(f, slots') && Remembered(f, slots', Deleted(last, key, t))
  {
    StoreRemembers(f, slots, last, j, slots[j].(ttl := t), key, last[key].(expiry := t));
  }

  lemma ExpireAbsent(f: Functions, slots: seq<Slot>, last: map<Key, Entry>, key: Key, t: nat)
    requires TableOk(f, slots) && Remembered(f, slots, last) && Absent(f, slots, key)
    ensures Remembered(f, slots, Deleted(last, key, t))
  {
  }

  /** A new expiry decides how long the key is still found, and nothing else. */
  lemma ExpirySet(f: Functions, slots: seq<Slot>, mem: Memory, key: Key, j: nat, t: nat)
    requires TableOk(f, slots) && ValidKey(key) && j < |slots|
    requires slots[j].val != 0 && KLen(slots[j].len) <= |slots[j].key| && KeyOf(slots[j]) == key
    requires TableOk(f, slots[j := slots[j].(ttl := t)]) && t > 0
    ensures var slots' := slots[j := slots[j].(ttl := t)];
            forall tv: nat :: Lookup(f, slots', mem, key, tv) == if tv < t then Found(f, slots, mem, key) else None
  {
    LocateFinds(f, slots, key, j);
    LocateFinds(f, slots[j := slots[j].(ttl := t)], key, j);
  }
}
