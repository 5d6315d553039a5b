/**
 The YAC slot table on values: four probes per key, the invariant every run keeps, and what a
 lookup finds.  The two hashes and the checksum are arbitrary functions.
 */
module YacSlots {
  import opened Bytes
  import T = YacTable

  type Key = seq<Byte>

  const KEY_BYTES := 48

  datatype Functions = Functions(h1: Key -> nat, h2: Key -> nat, crc: seq<Byte> -> nat)

  /** A slot; `val` is the address of its block, 0 when the slot is empty.  `len` packs the
      length of the value and, in its low byte, the length of the key. */
  datatype Slot = Slot(h: nat, crc: nat, ttl: nat, len: nat, flag: int, size: nat, val: nat, key: seq<Byte>)

  /** A block: its last access time, its own copy of the packed length, and its bytes. */
  datatype Block = Block(atime: nat, len: nat, data: seq<Byte>)

  const EMPTY := Slot(0, 0, 0, 0, 0, 0, 0, seq(KEY_BYTES, _ => 0))

  /** Blocks by address; an address never written holds zeros. */
  type Memory = map<nat, Block>

  function Pack(klen: nat, vlen: nat): nat {
    vlen * 256 + klen % 256
  }

  function KLen(len: nat): nat {
    len % 256
  }

  function VLen(len: nat): nat {
    len / 256
  }

  predicate ValidKey(key: Key) {
    1 <= |key| <= KEY_BYTES
  }

  function KeyOf(s: Slot): Key
    requires KLen(s.len) <= |s.key|
  {
    s.key[..KLen(s.len)]
  }

  /** The key bytes of a slot after copying a key over them. */
  function Stored(key: Key, old_: seq<Byte>): seq<Byte>
    requires ValidKey(key) && |old_| == KEY_BYTES
  {
    key + old_[|key|..]
  }

  /** The test for an exact match: hash, key length and key bytes. */
  predicate Matches(f: Functions, s: Slot, key: Key)
    requires |s.key| == KEY_BYTES && |key| <= KEY_BYTES
  {
    s.h == f.h1(key) && KLen(s.len) == |key| && s.key[..|key|] == key
  }

  /** The i-th slot on the probe path of a key in a table of n slots. */
  function Path(f: Functions, n: nat, key: Key, i: nat): (j: nat)
    requires n > 0
    ensures j < n
  {
    Ring(f.h1(key), f.h2(key) % n, i, n)
  }

  /** A place in a ring of n, i steps of s on from h. */
  function Ring(h: nat, s: nat, i: nat, n: nat): (r: nat)
    requires n > 0
    ensures r < n
  {
    (h + i * s) % n
  }

  /** The first probe is the hash masked, and every further one goes on by the masked second hash. */
  lemma PathSteps(f: Functions, n: nat, key: Key, i: nat)
    requires n > 0
    ensures Path(f, n, key, 0) == f.h1(key) % n
    ensures Path(f, n, key, i + 1) == (Path(f, n, key, i) + f.h2(key) % n) % n
  {
    hide Ring;
    RingStart(f.h1(key), f.h2(key) % n, n);
    RingSteps(f.h1(key), f.h2(key) % n, i, n);
  }

  lemma RingStart(h: nat, s: nat, n: nat)
    requires n > 0
    ensures Ring(h, s, 0, n) == h % n
  {
  }

  lemma RingSteps(h: nat, s: nat, i: nat, n: nat)
    requires n > 0
    ensures Ring(h, s, i + 1, n) == (Ring(h, s, i, n) + s) % n
  {
    hide Ring;
    var a := h + i * s;
    OneMore(s, i);
    RingIs(h, s, i, n, a);
    RingIs(h, s, i + 1, n, a + s);
    SumMod(a, s, n);
  }

  lemma RingIs(h: nat, s: nat, i: nat, n: nat, a: nat)
    requires n > 0 && a == h + i * s
    ensures Ring(h, s, i, n) == a % n
  {
  }

  lemma OneMore(s: nat, i: nat)
    ensures (i + 1) * s == i * s + s
  {
  }

  lemma Parts(x: nat, n: nat) returns (q: nat, r: nat)
    requires n > 0
    ensures x == n * q + r && r < n && x % n == r
  {
    q, r := x / n, x % n;
  }

  lemma SumMod(a: nat, s: nat, n: nat)
    requires n > 0
    ensures (a + s) % n == (a % n + s) % n
  {
    var q, r := Parts(a, n);
    var p, t := Parts(r + s, n);
    Distribute(n, q, p);
    T.ModUnique(a + s, n, q + p, t);
  }

  lemma Distribute(n: nat, q: nat, p: nat)
    ensures n * (q + p) == n * q + n * p
  {
  }

  /** In a table of four slots or more, an odd second hash sees four different slots. */
  lemma ProbesDiffer(f: Functions, m: nat, key: Key, i: nat, j: nat)
    requires m > 0 && i < j < 4 && f.h2(key) % 4 in {1, 3}
    ensures Path(f, 4 * m, key, i) != Path(f, 4 * m, key, j)
  {
    hide Ring;
    Mod4(f.h2(key), m);
    RingDiffers(f.h1(key), f.h2(key) % (4 * m), m, i, j);
  }

  lemma RingDiffers(h: nat, s: nat, m: nat, i: nat, j: nat)
    requires m > 0 && i < j < 4 && s % 4 in {1, 3}
    ensures Ring(h, s, i, 4 * m) != Ring(h, s, j, 4 * m)
  {
    Mod4(h + i * s, m);
    Mod4(h + j * s, m);
    Odd(h, s, i, j);
  }

  /** A multiple of four keeps the last two bits. */
  lemma Mod4(x: nat, m: nat)
    requires m > 0
    ensures x % (4 * m) % 4 == x % 4
  {
    var q, r := Parts(x, 4 * m);
    QuarterOut(m, q);
    LastBits(x, m * q, r);
  }

  lemma QuarterOut(m: nat, q: nat)
    ensures 4 * m * q == 4 * (m * q)
  {
  }

  lemma LastBits(x: nat, p: nat, r: nat)
    requires x == 4 * p + r
    ensures r % 4 == x % 4
  {
    var a, b := Parts(r, 4);
    T.ModUnique(x, 4, p + a, b);
  }

  lemma Odd(h: nat, s: nat, i: nat, j: nat)
    requires i < j < 4 && s % 4 in {1, 3}
    ensures (h + i * s) % 4 != (h + j * s) % 4
  {
    var p, c := Parts(s, 4);
    var d := j - i;
    Between(h, s, i, j);
    TimesOdd(d, s, p, c);
    SumMod(h + i * s, d * s, 4);
  }

  lemma Between(h: nat, s: nat, i: nat, j: nat)
    requires i <= j
    ensures h + j * s == h + i * s + (j - i) * s
  {
  }

  lemma TimesOdd(d: nat, s: nat, p: nat, c: nat)
    requires 1 <= d <= 3 && s == 4 * p + c && c in {1, 3}
    ensures d * s % 4 != 0
  {
    var r := if d == 2 then 2 else if d == 1 then c else 4 - c;
    var q := if d == 1 then p else if d == 2 then 2 * p + (2 * c - 2) / 4 else 3 * p + (3 * c - r) / 4;
    assert d * s == 4 * q + r;
    T.ModUnique(d * s, 4, q, r);
  }

  // ------------------------------------------------------------------- the table invariant

  ghost predicate BytesOk(slots: seq<Slot>) {
    forall j :: 0 <= j < |slots| ==> |slots[j].key| == KEY_BYTES
  }

  /** An occupied slot holds a key and its hash. */
  ghost predicate GoodSlot(f: Functions, s: Slot) {
    && |s.key| == KEY_BYTES
    && 1 <= KLen(s.len) <= KEY_BYTES
    && s.h == f.h1(KeyOf(s))
  }

  /** The first i slots on a key's path are occupied. */
  ghost predicate FilledTo(f: Functions, slots: seq<Slot>, key: Key, i: nat)
    requires |slots| > 0
  {
    forall k: nat :: k < i ==> slots[Path(f, |slots|, key, k)].val != 0
  }

  /** Slot j is on a key's path, and every slot before it on the path is occupied. */
  ghost predicate OnPath(f: Functions, slots: seq<Slot>, key: Key, j: nat)
    requires |slots| > 0
  {
    exists i: nat :: i < 4 && Path(f, |slots|, key, i) == j && FilledTo(f, slots, key, i)
  }

  ghost predicate TableOk(f: Functions, slots: seq<Slot>) {
    && |slots| > 0 && BytesOk(slots)
    && (forall j :: 0 <= j < |slots| && slots[j].val != 0 ==>
          GoodSlot(f, slots[j]) && OnPath(f, slots, KeyOf(slots[j]), j))
    && (forall i, j :: 0 <= i < j < |slots| && slots[i].val != 0 && slots[j].val != 0 ==>
          KeyOf(slots[i]) != KeyOf(slots[j]))
    && (forall j :: 0 <= j < |slots| && slots[j].val == 0 ==> slots[j].len == 0)
  }

  /** No slot holds the key. */
  ghost predicate Absent(f: Functions, slots: seq<Slot>, key: Key)
    requires BytesOk(slots)
  {
    forall j :: 0 <= j < |slots| && slots[j].val != 0 && KLen(slots[j].len) <= KEY_BYTES ==> KeyOf(slots[j]) != key
  }

  lemma MatchIsKey(f: Functions, slots: seq<Slot>, j: nat, key: Key)
    requires TableOk(f, slots) && j < |slots| && ValidKey(key)
    ensures Matches(f, slots[j], key) <==> slots[j].val != 0 && KeyOf(slots[j]) == key
  {
  }

  /** A key that the first i probes do not match, and whose next probe is empty or does not
      exist, is nowhere in the table. */
  lemma NotProbedIsAbsent(f: Functions, slots: seq<Slot>, key: Key, i: nat)
    requires TableOk(f, slots) && ValidKey(key) && i <= 4
    requires forall k: nat :: k < i ==> !Matches(f, slots[Path(f, |slots|, key, k)], key)
    requires i < 4 ==> slots[Path(f, |slots|, key, i)].val == 0
    ensures Absent(f, slots, key)
  {
    forall j | 0 <= j < |slots| && slots[j].val != 0 ensures KeyOf(slots[j]) != key {
      MatchIsKey(f, slots, j, key);
      var own := KeyOf(slots[j]);
      var k: nat :| k < 4 && Path(f, |slots|, own, k) == j && FilledTo(f, slots, own, k);
    }
  }

  lemma FilledStays(f: Functions, slots: seq<Slot>, slots': seq<Slot>, key: Key, j: nat)
    requires |slots| == |slots'| > 0
    requires forall k :: 0 <= k < |slots| && slots[k].val != 0 ==> slots'[k].val != 0
    requires OnPath(f, slots, key, j)
    ensures OnPath(f, slots', key, j)
  {
    var i: nat :| i < 4 && Path(f, |slots|, key, i) == j && FilledTo(f, slots, key, i);
    assert FilledTo(f, slots', key, i);
  }

  /** Storing a key in a slot on its path keeps the invariant, as long as no other slot has it. */
  lemma StoreKeepsTable(f: Functions, slots: seq<Slot>, j: nat, s: Slot, key: Key)
    requires TableOk(f, slots) && j < |slots| && ValidKey(key)
    requires s.val != 0 && GoodSlot(f, s) && KeyOf(s) == key
    requires OnPath(f, slots, key, j)
    requires Absent(f, slots, key) || (slots[j].val != 0 && KeyOf(slots[j]) == key)
    ensures TableOk(f, slots[j := s])
  {
    var slots' := slots[j := s];
    forall k | 0 <= k < |slots'| && slots'[k].val != 0
      ensures GoodSlot(f, slots'[k]) && OnPath(f, slots', KeyOf(slots'[k]), k)
    {
      FilledStays(f, slots, slots', KeyOf(slots'[k]), k);
    }
  }

  // ------------------------------------------------------------------- lookups

  function BlockAt(mem: Memory, addr: nat): Block {
    if addr in mem then mem[addr] else Block(0, 0, [])
  }

  /** The n bytes at a block's data, whatever its own length says. */
  function ReadData(b: Block, n: nat): (r: seq<Byte>)
    ensures |r| == n
    ensures n == |b.data| ==> r == b.data
  {
    seq(n, i requires 0 <= i < n => At(b.data, i))
  }

  /** The checks a slot must pass to be a hit: the block's length, the expiry, the checksum. */
  function Verify(f: Functions, mem: Memory, k: Slot, tv: nat): Option<(seq<Byte>, int)> {
    var v := BlockAt(mem, k.val);
    var s := ReadData(v, VLen(k.len));
    if k.len != v.len then None
    else if k.ttl != 0 && k.ttl <= tv then None
    else if k.crc != f.crc(s) then None
    else Some((s, k.flag))
  }

  /** The slot a lookup settles on: an empty home slot ends it at once, later empty slots are
      skipped. */
  function Locate(f: Functions, slots: seq<Slot>, key: Key): (r: Option<nat>)
    requires |slots| > 0 && BytesOk(slots) && ValidKey(key)
    ensures r.Some? ==> r.value < |slots| && Matches(f, slots[r.value], key)
  {
    var n := |slots|;
    var p0, p1, p2, p3 := Path(f, n, key, 0), Path(f, n, key, 1), Path(f, n, key, 2), Path(f, n, key, 3);
    if slots[p0].val == 0 then None
    else if Matches(f, slots[p0], key) then Some(p0)
    else if Matches(f, slots[p1], key) then Some(p1)
    else if Matches(f, slots[p2], key) then Some(p2)
    else if Matches(f, slots[p3], key) then Some(p3)
    else None
  }

  function Lookup(f: Functions, slots: seq<Slot>, mem: Memory, key: Key, tv: nat): Option<(seq<Byte>, int)>
    requires |slots| > 0 && BytesOk(slots) && ValidKey(key)
  {
    match Locate(f, slots, key)
    case None => None
    case Some(j) => Verify(f, mem, slots[j], tv)
  }

  /** What a lookup gives as long as the entry has not expired. */
  function Found(f: Functions, slots: seq<Slot>, mem: Memory, key: Key): Option<(seq<Byte>, int)>
    requires |slots| > 0 && BytesOk(slots) && ValidKey(key)
  {
    match Locate(f, slots, key)
    case None => None
    case Some(j) => Verify(f, mem, slots[j].(ttl := 0), 0)
  }

  /** A lookup settles on the slot that holds the key, if any does. */
  lemma LocateFinds(f: Functions, slots: seq<Slot>, key: Key, j: nat)
    requires TableOk(f, slots) && ValidKey(key) && j < |slots|
    ensures Locate(f, slots, key) == Some(j) <==> slots[j].val != 0 && KeyOf(slots[j]) == key
  {
    MatchIsKey(f, slots, j, key);
    var r := Locate(f, slots, key);
    if r.Some? {
      MatchIsKey(f, slots, r.value, key);
    }
    if slots[j].val != 0 && KeyOf(slots[j]) == key {
      var i: nat :| i < 4 && Path(f, |slots|, key, i) == j && FilledTo(f, slots, key, i);
      if i > 0 {
        assert slots[Path(f, |slots|, key, 0)].val != 0;
      }
      assert i == 0 || i == 1 || i == 2 || i == 3;
    }
  }
}
