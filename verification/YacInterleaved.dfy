/**
 The YAC cache shared by any number of processes.  Copying a slot and storing a slot are atomic;
 everything between is interleaved, and a block may hold any bytes whenever it is read, because
 another process may be allocating or writing there.
 */
module YacInterleaved {
  import opened Bytes
  import opened YacSlots

  /** One call of update: what it stores, and for which key. */
  datatype Change = Change(key: Key, data: seq<Byte>, flag: int, expiry: nat)

  datatype Hit = Hit(key: Key, data: seq<Byte>, flag: int)

  /** Where a process stands between two atomic steps. */
  datatype Proc =
    | Idle
    | Finding(key: Key, i: nat)            // about to copy the i-th slot on the path
    | Verifying(key: Key, k: Slot)         // the copy matched; the block is still to be read
    | Probing(u: Change, i: nat)           // an update about to copy the i-th slot
    | Evicting(u: Change, k: Slot)         // the path is full; `k` is the copy of its last slot
    | Writing(u: Change, j: nat, k: Slot)  // slot j is chosen, `k` is the copy to be stored back
    | Deleting(key: Key, i: nat)
    | Expiring(j: nat, ttl: nat)

  datatype State = State(slots: seq<Slot>, started: set<Change>, procs: map<nat, Proc>, hits: set<Hit>)

  /** The slot an update stores: its own fields, and the block and spare key bytes of the copy. */
  function StoredSlot(f: Functions, u: Change, k: Slot): Slot
    requires ValidKey(u.key) && |k.key| == KEY_BYTES
  {
    Slot(f.h1(u.key), f.crc(u.data), u.expiry, Pack(|u.key|, |u.data|), u.flag, k.size, k.val, Stored(u.key, k.key))
  }

  /** Slots and copies have their key buffers, keys in flight are valid, indices are in range. */
  ghost predicate ProcOk(n: nat, p: Proc) {
    match p
    case Idle => true
    case Finding(key, i) => ValidKey(key) && i < 4
    case Verifying(key, k) => ValidKey(key) && |k.key| == KEY_BYTES
    case Probing(u, i) => ValidKey(u.key) && i < 4
    case Evicting(u, k) => ValidKey(u.key) && |k.key| == KEY_BYTES
    case Writing(u, j, k) => ValidKey(u.key) && j < n && |k.key| == KEY_BYTES
    case Deleting(key, i) => ValidKey(key) && i < 4
    case Expiring(j, _) => j < n
  }

  ghost predicate Shaped(s: State) {
    && |s.slots| > 0 && BytesOk(s.slots)
    && forall p :: p in s.procs ==> ProcOk(|s.slots|, s.procs[p])
  }

  // ------------------------------------------------------------------- steps

  /** A process moves on without touching the shared state. */
  ghost predicate Moves(s: State, s': State, p: nat, to: Proc) {
    s' == s.(procs := s.procs[p := to])
  }

  ghost predicate StepIdle(s: State, s': State, p: nat)
    requires Shaped(s)
  {
    || (exists key: Key :: ValidKey(key) && Moves(s, s', p, Finding(key, 0)))
    || (exists key: Key :: ValidKey(key) && Moves(s, s', p, Deleting(key, 0)))
    || (exists u: Change :: ValidKey(u.key) && Begins(s, s', p, u))
  }

  ghost predicate Begins(s: State, s': State, p: nat, u: Change) {
    s' == s.(procs := s.procs[p := Probing(u, 0)], started := s.started + {u})
  }

  /** find: copy a slot; an empty home slot ends it, a match goes on to the block. */
  ghost predicate StepFinding(f: Functions, s: State, s': State, p: nat, key: Key, i: nat)
    requires Shaped(s) && ValidKey(key) && i < 4
  {
    var k := s.slots[Path(f, |s.slots|, key, i)];
    if i == 0 && k.val == 0 then Moves(s, s', p, Idle)
    else if Matches(f, k, key) then Moves(s, s', p, Verifying(key, k))
    else if i < 3 then Moves(s, s', p, Finding(key, i + 1))
    else Moves(s, s', p, Idle)
  }

  /** find: the block is read, with any length word and any bytes; a hit when all checks pass. */
  ghost predicate StepVerifying(f: Functions, s: State, s': State, p: nat, key: Key, k: Slot) {
    || Moves(s, s', p, Idle)
    || (exists data: seq<Byte> :: Hits(f, s, s', p, key, k, data))
  }

  ghost predicate Hits(f: Functions, s: State, s': State, p: nat, key: Key, k: Slot, data: seq<Byte>) {
    && |data| == VLen(k.len) && k.crc == f.crc(data)
    && s' == s.(procs := s.procs[p := Idle], hits := s.hits + {Hit(key, data, k.flag)})
  }

  /** update: copy a slot; an empty one or a match is chosen, and a full path must evict.  The
      chosen copy is given a block: its own, or one newly allocated. */
  ghost predicate StepProbing(f: Functions, s: State, s': State, p: nat, u: Change, i: nat)
    requires Shaped(s) && ValidKey(u.key) && i < 4
  {
    var j := Path(f, |s.slots|, u.key, i);
    var k := s.slots[j];
    if k.val == 0 || Matches(f, k, u.key) then Chooses(s, s', p, u, j, k)
    else if i < 3 then Moves(s, s', p, Probing(u, i + 1))
    else Moves(s, s', p, Evicting(u, k))
  }

  /** An update has settled on slot j with the copy k: it stops (an add refused, or no memory), or
      goes on with some block. */
  ghost predicate Chooses(s: State, s': State, p: nat, u: Change, j: nat, k: Slot) {
    || Moves(s, s', p, Idle)
    || (exists size: nat, val: nat :: val != 0 && TakesBlock(s, s', p, u, j, k, size, val))
  }

  ghost predicate TakesBlock(s: State, s': State, p: nat, u: Change, j: nat, k: Slot, size: nat, val: nat) {
    Moves(s, s', p, Writing(u, j, k.(size := size, val := val)))
  }

  /** update: give up some slot of the path, with the old copy when it is dead, with a new copy of
      it otherwise. */
  ghost predicate StepEvicting(f: Functions, s: State, s': State, p: nat, u: Change, k: Slot)
    requires Shaped(s) && ValidKey(u.key)
  {
    exists i: nat :: i < 4 && Evicts(s, s', p, u, Path(f, |s.slots|, u.key, i), k)
  }

  ghost predicate Evicts(s: State, s': State, p: nat, u: Change, j: nat, k: Slot)
    requires j < |s.slots|
  {
    Chooses(s, s', p, u, j, k) || Chooses(s, s', p, u, j, s.slots[j])
  }

  /** update: the slot is stored. */
  ghost predicate StepWriting(f: Functions, s: State, s': State, p: nat, u: Change, j: nat, k: Slot)
    requires Shaped(s) && ValidKey(u.key) && j < |s.slots| && |k.key| == KEY_BYTES
  {
    s' == s.(slots := s.slots[j := StoredSlot(f, u, k)], procs := s.procs[p := Idle])
  }

  ghost predicate StepDeleting(f: Functions, s: State, s': State, p: nat, key: Key, i: nat)
    requires Shaped(s) && ValidKey(key) && i < 4
  {
    var j := Path(f, |s.slots|, key, i);
    var k := s.slots[j];
    if k.val == 0 then Moves(s, s', p, Idle)
    else if Matches(f, k, key) then MayExpire(s, s', p, j)
    else if i < 3 then Moves(s, s', p, Deleting(key, i + 1))
    else Moves(s, s', p, Idle)
  }

  ghost predicate MayExpire(s: State, s': State, p: nat, j: nat) {
    exists ttl: nat :: Moves(s, s', p, Expiring(j, ttl))
  }

  /** delete: only the expiry field of whatever the slot holds by now is written. */
  ghost predicate StepExpiring(s: State, s': State, p: nat, j: nat, ttl: nat)
    requires Shaped(s) && j < |s.slots|
  {
    s' == s.(slots := s.slots[j := s.slots[j].(ttl := ttl)], procs := s.procs[p := Idle])
  }

  ghost predicate Step(f: Functions, s: State, s': State, p: nat)
    requires Shaped(s) && p in s.procs
  {
    match s.procs[p]
    case Idle => StepIdle(s, s', p)
    case Finding(key, i) => StepFinding(f, s, s', p, key, i)
    case Verifying(key, k) => StepVerifying(f, s, s', p, key, k)
    case Probing(u, i) => StepProbing(f, s, s', p, u, i)
    case Evicting(u, k) => StepEvicting(f, s, s', p, u, k)
    case Writing(u, j, k) => StepWriting(f, s, s', p, u, j, k)
    case Deleting(key, i) => StepDeleting(f, s, s', p, key, i)
    case Expiring(j, ttl) => StepExpiring(s, s', p, j, ttl)
  }

  /** A slot as the zeroed table has it, as far as any step looks. */
  ghost predicate Blank(k: Slot) {
    k.val == 0 && k.len == 0 && |k.key| == KEY_BYTES
  }

  ghost predicate Init(s: State) {
    && |s.slots| > 0
    && (forall j :: 0 <= j < |s.slots| ==> Blank(s.slots[j]))
    && (forall p :: p in s.procs ==> s.procs[p] == Idle)
    && s.started == {} && s.hits == {}
  }

  // ------------------------------------------------------------------- the invariant

  /** The slot's key, lengths, flag and checksum are those of one update. */
  ghost predicate Describes(f: Functions, u: Change, s: Slot)
    requires |s.key| == KEY_BYTES
  {
    && ValidKey(u.key) && s.len == Pack(|u.key|, |u.data|)
    && s.key[..|u.key|] == u.key
    && s.flag == u.flag && s.crc == f.crc(u.data)
  }

  /** Never written, or written by one of the updates. */
  ghost predicate FromUpdate(f: Functions, started: set<Change>, s: Slot)
    requires |s.key| == KEY_BYTES
  {
    KLen(s.len) == 0 || exists u :: u in started && Describes(f, u, s)
  }

  ghost predicate ProcInv(f: Functions, started: set<Change>, p: Proc) {
    match p
    case Verifying(key, k) => |k.key| == KEY_BYTES && Matches'(f, k, key) && FromUpdate(f, started, k)
    case Probing(u, _) => u in started
    case Evicting(u, _) => u in started
    case Writing(u, _, _) => u in started
    case _ => true
  }

  ghost predicate Matches'(f: Functions, s: Slot, key: Key) {
    ValidKey(key) && |s.key| == KEY_BYTES && Matches(f, s, key)
  }

  /** A hit has the key, length, flag and checksum of an update that has started. */
  ghost predicate HitFromUpdate(f: Functions, started: set<Change>, h: Hit) {
    exists u :: u in started && u.key == h.key && |u.data| == |h.data| && u.flag == h.flag && f.crc(u.data) == f.crc(h.data)
  }

  ghost predicate Inv(f: Functions, s: State) {
    && Shaped(s)
    && (forall j :: 0 <= j < |s.slots| ==> FromUpdate(f, s.started, s.slots[j]))
    && (forall p :: p in s.procs ==> ProcInv(f, s.started, s.procs[p]))
    && (forall h :: h in s.hits ==> HitFromUpdate(f, s.started, h))
  }

  lemma InitInv(f: Functions, s: State)
    requires Init(s)
    ensures Inv(f, s)
  {
  }

  /** More updates started never invalidates anything. */
  lemma StartedGrows(f: Functions, s: State, started: set<Change>)
    requires Inv(f, s) && s.started <= started
    ensures forall j :: 0 <= j < |s.slots| ==> FromUpdate(f, started, s.slots[j])
    ensures forall p :: p in s.procs ==> ProcInv(f, started, s.procs[p])
    ensures forall h :: h in s.hits ==> HitFromUpdate(f, started, h)
  {
  }

  /** A matching copy that comes from an update comes from an update of that key. */
  lemma MatchDescribes(f: Functions, u: Change, k: Slot, key: Key)
    requires |k.key| == KEY_BYTES && Describes(f, u, k) && ValidKey(key) && Matches(f, k, key)
    ensures u.key == key && VLen(k.len) == |u.data|
  {
    assert KLen(k.len) == |u.key|;
  }

  lemma VerifyingInv(f: Functions, s: State, s': State, p: nat, key: Key, k: Slot)
    requires Inv(f, s) && p in s.procs && s.procs[p] == Verifying(key, k)
    requires StepVerifying(f, s, s', p, key, k)
    ensures Inv(f, s')
  {
    if !Moves(s, s', p, Idle) {
      var data: seq<Byte> :| Hits(f, s, s', p, key, k, data);
      var u :| u in s.started && Describes(f, u, k);
      MatchDescribes(f, u, k, key);
      assert HitFromUpdate(f, s.started, Hit(key, data, k.flag));
    }
  }

  lemma WritingInv(f: Functions, s: State, s': State, p: nat, u: Change, j: nat, k: Slot)
    requires Inv(f, s) && p in s.procs && s.procs[p] == Writing(u, j, k)
    requires StepWriting(f, s, s', p, u, j, k)
    ensures Inv(f, s')
  {
    assert Describes(f, u, StoredSlot(f, u, k));
  }

  lemma ExpiringInv(f: Functions, s: State, s': State, p: nat, j: nat, ttl: nat)
    requires Inv(f, s) && p in s.procs && s.procs[p] == Expiring(j, ttl)
    requires StepExpiring(s, s', p, j, ttl)
    ensures Inv(f, s')
  {
    var t := s.slots[j].(ttl := ttl);
    if KLen(t.len) != 0 {
      var u :| u in s.started && Describes(f, u, s.slots[j]);
      assert Describes(f, u, t);
    }
  }

  lemma IdleInv(f: Functions, s: State, s': State, p: nat)
    requires Inv(f, s) && p in s.procs && StepIdle(s, s', p)
    ensures Inv(f, s')
  {
    StartedGrows(f, s, s'.started);
  }

  lemma StepInv(f: Functions, s: State, s': State, p: nat)
    requires Inv(f, s) && p in s.procs && Step(f, s, s', p)
    ensures Inv(f, s') && s.started <= s'.started && s.hits <= s'.hits
  {
    match s.procs[p]
    case Idle => IdleInv(f, s, s', p);
    case Verifying(key, k) => VerifyingInv(f, s, s', p, key, k);
    case Writing(u, j, k) => WritingInv(f, s, s', p, u, j, k);
    case Expiring(j, ttl) => ExpiringInv(f, s, s', p, j, ttl);
    case _ =>
  }

  // ------------------------------------------------------------------- whole runs

  /** A run: a first state, then steps of arbitrary processes in arbitrary order. */
  ghost predicate IsRun(f: Functions, run: seq<State>, who: seq<nat>) {
    && |run| == |who| + 1 && Init(run[0])
    && forall i :: 0 <= i < |who| ==>
         Shaped(run[i]) && who[i] in run[i].procs && Step(f, run[i], run[i + 1], who[i])
  }

  lemma {:induction false} RunInv(f: Functions, run: seq<State>, who: seq<nat>, i: nat)
    requires IsRun(f, run, who) && i < |run|
    ensures Inv(f, run[i])
  {
    if i == 0 {
      InitInv(f, run[0]);
    } else {
      RunInv(f, run, who, i - 1);
      StepInv(f, run[i - 1], run[i], who[i - 1]);
    }
  }

  /** In every interleaving, every hit on a key has the length, flag and checksum of an update of
      that key that had started by then; with a collision-free checksum it is that update's value. */
  lemma EveryHitWasStored(f: Functions, run: seq<State>, who: seq<nat>, i: nat, h: Hit)
    requires IsRun(f, run, who) && i < |run| && h in run[i].hits
    ensures exists u :: u in run[i].started && u.key == h.key && u.flag == h.flag
                        && |u.data| == |h.data| && f.crc(u.data) == f.crc(h.data)
    ensures (forall a, b :: |a| == |b| && f.crc(a) == f.crc(b) ==> a == b) ==>
              exists u :: u in run[i].started && u.key == h.key && u.flag == h.flag && u.data == h.data
  {
    RunInv(f, run, who, i);
    assert HitFromUpdate(f, run[i].started, h);
  }
}
