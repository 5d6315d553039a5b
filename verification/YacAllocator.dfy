/**
 The YAC block allocator: every segment is a bump allocator, and when neither the preferred
 segment nor the ones probed after it have room, the last one probed starts over.
 */
module YacAllocator {
  import T = YacTable

  datatype Block = Block(off: nat, size: nat)

  /** TRUE_SIZE: at least 128 bytes, then rounded up to a multiple of 8. */
  function TrueSize(size: nat): (r: nat)
    ensures size <= r && r % 8 == 0 && if size < 128 then r == 128 else r < size + 8
  {
    if size < 128 then 128 else RoundedUp(size)
  }

  function RoundedUp(size: nat): (r: nat)
    ensures size <= r < size + 8 && r % 8 == 0
  {
    var q := (size + 7) / 8;
    T.ModUnique(8 * q, 8, q, 0);
    8 * q
  }

  predicate Disjoint(a: Block, b: Block) {
    a.off + a.size <= b.off || b.off + b.size <= a.off
  }

  /** Blocks given out since a segment last started over: inside its used part, and disjoint. */
  ghost predicate LiveIn(live: seq<Block>, pos: nat) {
    && (forall i :: 0 <= i < |live| ==> live[i].off + live[i].size <= pos)
    && (forall i, j :: 0 <= i < j < |live| ==> Disjoint(live[i], live[j]))
  }

  lemma LiveStep(live: seq<Block>, pos: nat, size: nat)
    requires LiveIn(live, pos)
    ensures LiveIn(live + [Block(pos, size)], pos + size)
  {
  }

  class Allocator {
    const base: seq<nat>      // where each segment starts
    const sizes: seq<nat>     // how large it is
    const pos: array<nat>     // how much of it is used
    var recycles: nat
    ghost var live: seq<seq<Block>>

    ghost predicate Valid()
      reads this, pos
    {
      && |base| == |sizes| == pos.Length == |live| > 0
      && (forall i :: 0 <= i < |sizes| ==> sizes[i] >= sizes[0])
      && (forall i :: 0 <= i < |base| ==> base[i] > 0)
      && (forall i, j :: 0 <= i < j < |base| ==> base[i] + sizes[i] <= base[j])
      && (forall i :: 0 <= i < |sizes| ==> pos[i] <= sizes[i] && LiveIn(live[i], pos[i]))
    }

    constructor (base: seq<nat>, sizes: seq<nat>)
      requires |base| == |sizes| > 0
      requires forall i :: 0 <= i < |sizes| ==> sizes[i] >= sizes[0] && base[i] > 0
      requires forall i, j :: 0 <= i < j < |base| ==> base[i] + sizes[i] <= base[j]
      ensures Valid() && fresh(pos)
      ensures forall i :: 0 <= i < |live| ==> live[i] == []
    {
      this.base, this.sizes := base, sizes;
      pos := new nat[|sizes|](_ => 0);
      recycles := 0;
      live := seq(|sizes|, _ => []);
    }

    /** yac_allocator_real_size: 0 when no segment could hold the request. */
    function RealSize(size: nat): (r: nat)
      requires |sizes| > 0
      ensures r == 0 <==> TrueSize(size) > sizes[0]
      ensures r != 0 ==> size <= r <= sizes[0] && r % 8 == 0
      ensures r != 0 ==> if size < 128 then r == 128 else r < size + 8
    {
      if TrueSize(size) > sizes[0] then 0 else TrueSize(size)
    }

    /** The segment a request probes in step i. */
    function Probed(hash: nat, i: nat): nat
      requires |sizes| > 0
    {
      (hash % |sizes| + i) % |sizes|
    }

    function Steps(): nat {
      if |sizes| > 4 then 4 else |sizes|
    }

    /** How far a segment is from the one the hash names, going around. */
    function Ahead(hash: nat, i: nat): nat
      requires i < |sizes|
    {
      var start := hash % |sizes|;
      if i >= start then i - start else i + |sizes| - start
    }

    /** Every segment less than four ahead is probed, in that order, and each probe is another one. */
    lemma AheadIsProbed(hash: nat, i: nat)
      requires |sizes| > 0
      ensures i < Steps() ==> Probed(hash, i) < |sizes| && Ahead(hash, Probed(hash, i)) == i
      ensures i < |sizes| && Ahead(hash, i) < 4 ==> Ahead(hash, i) < Steps() && Probed(hash, Ahead(hash, i)) == i
    {
      var n, start := |sizes|, hash % |sizes|;
      if i < n {
        AroundOnce(start, n, i);
        AroundOnce(start, n, Ahead(hash, i));
      }
    }

    /** yac_allocator_alloc_algo2, run without interference.  The first segment with room among
        those probed is used; without any, the last one probed starts over. */
    method Alloc(size: nat, hash: nat) returns (addr: nat, ghost seg: nat, ghost off: nat)
      requires Valid() && size <= sizes[0]
      modifies this`recycles, this`live, pos
      ensures Valid()
      ensures seg < |sizes| && addr == base[seg] + off && off + size <= sizes[seg] && addr > 0
      ensures forall i :: 0 <= i < |sizes| && i != seg ==> pos[i] == old(pos[i]) && live[i] == old(live[i])
      ensures pos[seg] == off + size
      ensures if recycles == old(recycles) then
                && off == old(pos[seg]) && live[seg] == old(live[seg]) + [Block(off, size)]
                && Ahead(hash, seg) < 4
                && forall i :: 0 <= i < |sizes| && Ahead(hash, i) < Ahead(hash, seg) ==> old(pos[i]) + size > sizes[i]
              else
                && recycles == old(recycles) + 1
                && off == 0 && live[seg] == [Block(0, size)]
                && Ahead(hash, seg) == (if |sizes| < 4 then |sizes| else 4) - 1
                && forall i :: 0 <= i < |sizes| && Ahead(hash, i) < 4 ==> old(pos[i]) + size > sizes[i]
    {
      hide LiveIn, Ahead;
      var i, current := Search(size, hash);
      seg := current;
      if i == Steps() {
        Recycle(current);
      }
      off := pos[current];
      Take(current, size);
      addr := base[current] + (pos[current] - size);
    }

    /** The first of the probed segments with room, or the last one probed. */
    method Search(size: nat, hash: nat) returns (i: nat, current: nat)
      requires Valid()
      ensures i <= Steps() && current < |sizes| && Ahead(hash, current) == if i == Steps() then Steps() - 1 else i
      ensures forall s :: 0 <= s < |sizes| && Ahead(hash, s) < (if i == Steps() then 4 else i) ==> pos[s] + size > sizes[s]
      ensures i < Steps() ==> pos[current] + size <= sizes[current]
    {
      hide Probed, Ahead, LiveIn;
      i := 0;
      var max := Steps();
      current := Probed(hash, 0);
      AheadIsProbed(hash, 0);
      while i < max && pos[current] + size > sizes[current]
        invariant 0 <= i <= max && current < |sizes|
        invariant current == Probed(hash, if i == max then max - 1 else i)
        invariant Ahead(hash, current) == if i == max then max - 1 else i
        invariant forall k: nat :: k < i ==> NoRoom(Probed(hash, k), size)
        decreases max - i
      {
        i := i + 1;
        if i < max {
          current := Probed(hash, i);
          AheadIsProbed(hash, i);
        }
      }
      forall s | 0 <= s < |sizes| && Ahead(hash, s) < (if i == Steps() then 4 else i) ensures pos[s] + size > sizes[s] {
        AheadIsProbed(hash, s);
        assert NoRoom(Probed(hash, Ahead(hash, s)), size);
      }
    }

    ghost predicate NoRoom(s: nat, size: nat)
      requires |sizes| == pos.Length
      reads pos
    {
      s < |sizes| && pos[s] + size > sizes[s]
    }

    /** A segment starts over. */
    method Recycle(seg: nat)
      requires Valid() && seg < |sizes|
      modifies this`recycles, this`live, pos
      ensures Valid() && recycles == old(recycles) + 1
      ensures live == old(live)[seg := []] && pos[seg] == 0
      ensures forall i :: 0 <= i < |sizes| && i != seg ==> pos[i] == old(pos[i])
    {
      pos[seg] := 0;
      live := live[seg := []];
      recycles := recycles + 1;
    }

    /** The next bytes of a segment are given out. */
    method Take(seg: nat, size: nat)
      requires Valid() && seg < |sizes| && pos[seg] + size <= sizes[seg]
      modifies this`live, pos
      ensures Valid() && live == old(live)[seg := old(live)[seg] + [Block(old(pos[seg]), size)]]
      ensures pos[seg] == old(pos[seg]) + size
      ensures forall i :: 0 <= i < |sizes| && i != seg ==> pos[i] == old(pos[i])
    {
      LiveStep(live[seg], pos[seg], size);
      live := live[seg := live[seg] + [Block(pos[seg], size)]];
      pos[seg] := pos[seg] + size;
    }
  }

  /** A block in a segment, less than four ahead of the one the hash names. */
  predicate Holds(a: Allocator, addr: nat, size: nat, hash: nat, seg: nat)
    requires seg < |a.sizes|
  {
    && |a.base| == |a.sizes| && a.Ahead(hash, seg) < 4
    && a.base[seg] <= addr && addr + size <= a.base[seg] + a.sizes[seg]
  }

  /** A position in a ring, i steps on. */
  lemma AroundOnce(start: nat, n: nat, i: nat)
    requires start < n && i < n
    ensures (start + i) % n == if start + i < n then start + i else start + i - n
  {
    if start + i >= n {
      assert start + i == n * 1 + (start + i - n);
      T.ModUnique(start + i, n, 1, start + i - n);
    } else {
      T.ModUnique(start + i, n, 0, start + i);
    }
  }

  /** Blocks live in different segments are disjoint as addresses, and so are blocks live in the
      same one. */
  lemma LiveBlocksDisjoint(a: Allocator, s: nat, i: nat, t: nat, j: nat)
    requires a.Valid() && s < |a.live| && i < |a.live[s]| && t < |a.live| && j < |a.live[t]|
    requires s != t || i != j
    ensures var x, y := a.live[s][i], a.live[t][j];
            Disjoint(Block(a.base[s] + x.off, x.size), Block(a.base[t] + y.off, y.size))
  {
    var x, y := a.live[s][i], a.live[t][j];
    assert x.off + x.size <= a.pos[s] <= a.sizes[s];
    assert y.off + y.size <= a.pos[t] <= a.sizes[t];
    if s < t {
      assert a.base[s] + a.sizes[s] <= a.base[t];
    } else if t < s {
      assert a.base[t] + a.sizes[t] <= a.base[s];
    } else if i < j {
      assert Disjoint(a.live[s][i], a.live[s][j]);
    } else {
      assert Disjoint(a.live[s][j], a.live[s][i]);
    }
  }
}
