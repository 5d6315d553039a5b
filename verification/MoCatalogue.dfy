/**
 Reading a gettext MO catalogue with relative seeks only.
 "The Format of GNU MO Files" in the GNU gettext manual gives the layout.
 */
module MoCatalogue {
  import opened Bytes

  const WORD := 0x1_0000_0000
  const HALF := 0x8000_0000
  const HEADER := 20

  /** A key and a value, each with the byte after it, and how many NULs the value holds. */
  datatype Entry = Entry(key: seq<Byte>, value: seq<Byte>, variants: nat)

  // ------------------------------------------------------------------- the layout

  function Read16(d: seq<Byte>, little: bool): nat
    requires |d| >= 2
  {
    var a: int, b: int := d[0], d[1];
    if little then b * 256 + a else a * 256 + b
  }

  function Read32(d: seq<Byte>, little: bool): (r: nat)
    requires |d| >= 4
    ensures r < WORD
  {
    var a: int, b: int, c: int, e: int := d[0], d[1], d[2], d[3];
    if little then ((e * 256 + c) * 256 + b) * 256 + a else ((a * 256 + b) * 256 + c) * 256 + e
  }

  /** The 32-bit number at an offset of the image. */
  function At32(image: seq<Byte>, off: nat, little: bool): (r: nat)
    requires off + 4 <= |image|
    ensures r < WORD
  {
    Read32(image[off..off + 4], little)
  }

  /** The bytes of a 32-bit number, and of a 16-bit one: least significant first when little. */
  function Word(v: nat, little: bool): seq<Byte>
    requires v < WORD
  {
    var a: Byte, b: Byte, c: Byte, d: Byte := v / 0x100_0000, v / 0x1_0000 % 256, v / 0x100 % 256, v % 256;
    if little then [d, c, b, a] else [a, b, c, d]
  }

  function Half(v: nat, little: bool): seq<Byte>
    requires v < 0x1_0000
  {
    var a: Byte, b: Byte := v / 256, v % 256;
    if little then [b, a] else [a, b]
  }

  /** Numbers read as they were written, in either byte order. */
  lemma WordRead(v: nat, little: bool)
    requires v < WORD
    ensures Read32(Word(v, little), little) == v
  {
    var x := v / 0x100;
    var y := x / 0x100;
    assert v / 0x1_0000 == y && v / 0x100_0000 == y / 0x100;
    assert v == x * 0x100 + v % 256 && x == y * 0x100 + x % 256 && y == y / 256 * 256 + y % 256;
  }

  lemma HalfRead(v: nat, little: bool)
    requires v < 0x1_0000
    ensures Read16(Half(v, little), little) == v
  {
  }

  /** A header written in either byte order is read in that order. */
  lemma HeaderRead(image: seq<Byte>, little: bool, major: nat, count: nat, keyAt: nat, valueAt: nat)
    requires |image| >= HEADER && major < 0x1_0000 && count < WORD && keyAt < WORD && valueAt < WORD
    requires image[0..4] == Word(0x950412de, little) && image[4..6] == Half(major, little)
    requires image[8..12] == Word(count, little)
    requires image[12..16] == Word(keyAt, little) && image[16..20] == Word(valueAt, little)
    ensures IsLittle(image) == little && Count(image) == count
    ensures TableAt(image, 12) == keyAt && TableAt(image, 16) == valueAt
    ensures HeaderOk(image) <==> major <= 1 && count > 0
  {
    hide Read32, Read16, Word, Half;
    MagicRead(little);
    HalfRead(major, little);
    WordRead(count, little);
    WordRead(keyAt, little);
    WordRead(valueAt, little);
  }

  lemma MagicRead(little: bool)
    ensures Read32(Word(0x950412de, little), true) == if little then 0x950412de else 0xde120495
  {
    assert Word(0x950412de, true) == [0xde, 0x12, 0x04, 0x95];
    assert Word(0x950412de, false) == [0x95, 0x04, 0x12, 0xde];
  }

  /** So is an entry of a table. */
  lemma EntryRead(image: seq<Byte>, table: nat, i: nat, length: nat, offset: nat)
    requires |image| >= HEADER && table + 8 * (i + 1) <= |image| && length < WORD && offset < WORD
    requires image[table + 8 * i..table + 8 * i + 4] == Word(length, IsLittle(image))
    requires image[table + 8 * i + 4..table + 8 * i + 8] == Word(offset, IsLittle(image))
    ensures StringLength(image, table, i) == length && StringAt(image, table, i) == offset
  {
    hide Read32, Word, IsLittle;
    WordRead(length, IsLittle(image));
    WordRead(offset, IsLittle(image));
  }

  function Magic(image: seq<Byte>): nat
    requires |image| >= HEADER
  {
    At32(image, 0, true)
  }

  predicate IsLittle(image: seq<Byte>)
    requires |image| >= HEADER
  {
    Magic(image) == 0x950412de
  }

  /** A header this reader accepts. */
  predicate HeaderOk(image: seq<Byte>) {
    && |image| >= HEADER
    && Magic(image) in {0x950412de, 0xde120495}
    && Read16(image[4..6], IsLittle(image)) <= 1
    && Count(image) > 0
  }

  function Count(image: seq<Byte>): nat
    requires |image| >= HEADER
  {
    At32(image, 8, IsLittle(image))
  }

  /** Where a table starts: the keys' at 12 in the header, the values' at 16. */
  function TableAt(image: seq<Byte>, field: nat): nat
    requires |image| >= HEADER && field in {12, 16}
  {
    At32(image, field, IsLittle(image))
  }

  /** The i-th string of a table is inside the image, with one byte more. */
  predicate StringIn(image: seq<Byte>, table: nat, i: nat)
    requires |image| >= HEADER && table + 8 * (i + 1) <= |image|
  {
    StringAt(image, table, i) + StringLength(image, table, i) + 1 <= |image|
  }

  function StringLength(image: seq<Byte>, table: nat, i: nat): nat
    requires |image| >= HEADER && table + 8 * (i + 1) <= |image|
  {
    At32(image, table + 8 * i, IsLittle(image))
  }

  function StringAt(image: seq<Byte>, table: nat, i: nat): nat
    requires |image| >= HEADER && table + 8 * (i + 1) <= |image|
  {
    At32(image, table + 8 * i + 4, IsLittle(image))
  }

  /** The bytes of the i-th string of a table and the byte after them. */
  function StringBytes(image: seq<Byte>, table: nat, i: nat): (r: seq<Byte>)
    requires |image| >= HEADER && table + 8 * (i + 1) <= |image| && StringIn(image, table, i)
    ensures |r| == StringLength(image, table, i) + 1
  {
    var off, len := StringAt(image, table, i), StringLength(image, table, i);
    image[off..off + len + 1]
  }

  /** Both tables and every string they name lie inside the image. */
  predicate TableOk(image: seq<Byte>, field: nat)
    requires |image| >= HEADER && field in {12, 16}
  {
    && TableAt(image, field) + 8 * Count(image) <= |image|
    && forall i :: 0 <= i < Count(image) ==> StringIn(image, TableAt(image, field), i)
  }

  /** Header, tables and strings all lie inside the image. */
  predicate InPlace(image: seq<Byte>) {
    HeaderOk(image) && TableOk(image, 12) && TableOk(image, 16)
  }

  function Zeros(s: seq<Byte>): nat {
    if s == [] then 0 else Zeros(s[..|s| - 1]) + if s[|s| - 1] == 0 then 1 else 0
  }

  // ------------------------------------------------------------------- the input

  /** A 32-bit difference taken as a signed int. */
  function Signed(d: int): int {
    var u := d % WORD;
    if u < HALF then u else u - WORD
  }

  /** Equal as 32-bit numbers. */
  predicate Congruent(a: int, b: int) {
    (a - b) % WORD == 0
  }

  /** Where a seek by the 32-bit difference to a target offset ends, from a position. */
  function Goes(pos: nat, target: nat): int {
    pos + Signed(target - pos)
  }

  /** The position after a seek to an offset and a read of a signed count there.  The input function
      takes a count that is not positive for another relative seek, and lets it succeed unless it
      goes before the start. */
  function AfterRead(image: seq<Byte>, pos: nat, offset: nat, n: int): Option<nat> {
    var at := Goes(pos, offset);
    if at < 0 || at + n < 0 || (n > 0 && at + n > |image|) then None else Some(at + n)
  }

  /** The position after the first i strings of a table, each with the byte after it. */
  function AfterStrings(image: seq<Byte>, table: nat, i: nat, pos: nat): Option<nat>
    requires |image| >= HEADER && table + 8 * i <= |image|
  {
    if i == 0 then Some(pos)
    else
      match AfterStrings(image, table, i - 1, pos)
      case None => None
      case Some(p) => AfterRead(image, p, StringAt(image, table, i - 1), Signed(StringLength(image, table, i - 1) + 1))
  }

  /** The images this reader decodes: the tables lie inside, and the seeks and reads for all keys
      and then all values succeed. */
  predicate Readable(image: seq<Byte>) {
    && HeaderOk(image)
    && TableAt(image, 12) + 8 * Count(image) <= |image| && TableAt(image, 16) + 8 * Count(image) <= |image|
    && match AfterStrings(image, TableAt(image, 12), Count(image), TableAt(image, 16) + 8 * Count(image))
       case None => false
       case Some(p) => AfterStrings(image, TableAt(image, 16), Count(image), p).Some?
  }

  /** However offset and position compare, a seek by the 32-bit difference of a target offset and
      the tracked position leads to the target, or cannot succeed, or ends where no read can. */
  lemma SeekLandsOn(pos: nat, target: nat)
    requires target < WORD
    ensures Congruent(Goes(pos, target), target)
    ensures 0 <= Goes(pos, target) < HALF ==> Goes(pos, target) == target
    ensures pos < HALF && target < HALF ==> Goes(pos, target) == target
    ensures pos < HALF <= target ==> Goes(pos, target) == if target - pos < HALF then target else target - WORD
  {
    var d := target - pos;
    var q := d / WORD;
    assert d == q * WORD + d % WORD;
    var k := if d % WORD < HALF then q else q + 1;
    assert Goes(pos, target) == target - k * WORD;
    Multiple(k);
    if pos < HALF {
      if d >= 0 { SmallMod(d); } else { ModShift(d + WORD, 1); SmallMod(d + WORD); }
    }
  }

  lemma Multiple(k: int)
    ensures (-k * WORD) % WORD == 0
  {
  }

  lemma SmallMod(d: nat)
    requires d < WORD
    ensures d % WORD == d
  {
  }

  lemma ModShift(d: int, q: int)
    ensures (d - q * WORD) % WORD == d % WORD
  {
    var k := d / WORD;
    assert d == k * WORD + d % WORD;
    assert d - q * WORD == (k - q) * WORD + d % WORD;
    var x := d - q * WORD;
    assert x == x / WORD * WORD + x % WORD;
  }

  class Input {
    const image: seq<Byte>
    var pos: nat

    constructor (image: seq<Byte>)
      ensures this.image == image && pos == 0
    {
      this.image, pos := image, 0;
    }

    /** The input function and the check of what it returns: all `n` bytes or a failure; for a count
        that is not positive, a relative seek that leaves the buffer as it was. */
    method Read(n: int) returns (r: Option<seq<Byte>>)
      modifies this
      ensures if n > 0 then
                if old(pos) + n <= |image| then r == Some(image[old(pos)..old(pos) + n]) && pos == old(pos) + n
                else r == None
              else
                if old(pos) + n >= 0 then r == Some([]) && pos == old(pos) + n else r == None
    {
      if n <= 0 {
        var ok := Seek(n);
        r := if ok then Some([]) else None;
      } else if pos + n <= |image| {
        r := Some(image[pos..pos + n]);
        pos := pos + n;
      } else {
        r := None;
      }
    }

    /** fseek relative to the position: it may go past the end, not before the start. */
    method Seek(delta: int) returns (ok: bool)
      modifies this
      ensures ok == (old(pos) + delta >= 0)
      ensures pos == if ok then old(pos) + delta else old(pos)
    {
      ok := pos + delta >= 0;
      if ok {
        pos := pos + delta;
      }
    }

    /** Seek to an offset given the tracked position, and read there as many bytes as a 32-bit number
        says, taken as a signed int.  `tell` follows along in 32-bit arithmetic. */
    method ReadAt(tell0: int, offset: nat, n: nat) returns (r: Option<seq<Byte>>, tell: int)
      requires |image| < HALF && offset < WORD && n <= WORD
      requires Congruent(tell0, pos)
      modifies this
      ensures match AfterRead(image, old(pos), offset, Signed(n))
              case None => r == None
              case Some(p) => r.Some? && pos == p && Congruent(tell, pos)
      ensures r.Some? && 0 < n < HALF ==>
                offset + n <= |image| && r.value == image[offset..offset + n] && pos == offset + n
    {
      hide Signed, Congruent;
      SeekLandsOn(pos, offset);
      Tracked(tell0, pos, offset);
      tell := Signed(offset + n);
      var ok := Seek(Signed(offset - tell0));
      if !ok {
        return None, tell;
      }
      ghost var at := pos;
      StillTracked(at, offset, n);
      r := Read(Signed(n));
    }

    /** All the strings of a table, in order. */
    method ReadStrings(tell0: int, table: seq<Byte>, field: nat, count: nat) returns (r: Option<seq<seq<Byte>>>, tell: int)
      requires |image| < HALF && HeaderOk(image) && field in {12, 16} && count == Count(image)
      requires TableAt(image, field) + 8 * count <= |image|
      requires table == image[TableAt(image, field)..TableAt(image, field) + 8 * count]
      requires Congruent(tell0, pos)
      modifies this
      ensures match AfterStrings(image, TableAt(image, field), count, old(pos))
              case None => r == None
              case Some(p) => r.Some? && pos == p && Congruent(tell, pos)
      ensures r.Some? ==> StringsOf(image, field, r.value)
    {
      hide At32, Read32, AfterRead, Signed, AfterStrings, IsLittle, Congruent;
      FirstString(image, TableAt(image, field), pos);
      var little := IsLittle(image);
      ghost var at := TableAt(image, field);
      var strings := [];
      tell := tell0;
      var i := 0;
      while i < count
        invariant 0 <= i <= count && |strings| == i && Congruent(tell, pos)
        invariant AfterStrings(image, at, i, old(pos)) == Some(pos)
        invariant forall k :: 0 <= k < i ==> IsString(image, at, k, strings[k])
      {
        TableWord(image, at, 8 * count, 8 * i, little);
        TableWord(image, at, 8 * count, 8 * i + 4, little);
        var length := Read32(table[8 * i..8 * i + 4], little);
        var offset := Read32(table[8 * i + 4..8 * i + 8], little);
        var s;
        s, tell := ReadAt(tell, offset, length + 1);
        NextString(image, at, i, old(pos));
        if s.None? {
          NoneStays(image, at, i + 1, count, old(pos));
          return None, tell;
        }
        strings := strings + [s.value];
        i := i + 1;
      }
      r := Some(strings);
    }
  }

  /** A string as read: the bytes in place and the one after them.  Of a string whose length is
      2^31 - 1 or more nothing is read, and nothing is said here. */
  ghost predicate IsString(image: seq<Byte>, table: nat, i: nat, s: seq<Byte>)
    requires |image| >= HEADER && table + 8 * (i + 1) <= |image|
  {
    StringLength(image, table, i) + 1 < HALF ==> StringIn(image, table, i) && s == StringBytes(image, table, i)
  }

  ghost predicate StringsOf(image: seq<Byte>, field: nat, strings: seq<seq<Byte>>)
    requires |image| >= HEADER && field in {12, 16} && TableAt(image, field) + 8 * Count(image) <= |image|
  {
    && |strings| == Count(image)
    && forall i :: 0 <= i < |strings| ==> IsString(image, TableAt(image, field), i, strings[i])
  }

  lemma NextString(image: seq<Byte>, table: nat, i: nat, pos: nat)
    requires |image| >= HEADER && table + 8 * (i + 1) <= |image|
    ensures AfterStrings(image, table, i + 1, pos) ==
            match AfterStrings(image, table, i, pos)
            case None => None
            case Some(p) => AfterRead(image, p, StringAt(image, table, i), Signed(StringLength(image, table, i) + 1))
  {
  }

  lemma FirstString(image: seq<Byte>, table: nat, pos: nat)
    requires |image| >= HEADER && table <= |image|
    ensures AfterStrings(image, table, 0, pos) == Some(pos)
  {
  }

  /** Once a string fails, so does the table. */
  lemma {:induction false} NoneStays(image: seq<Byte>, table: nat, i: nat, n: nat, pos: nat)
    requires |image| >= HEADER && table + 8 * n <= |image| && i <= n
    requires AfterStrings(image, table, i, pos) == None
    ensures AfterStrings(image, table, n, pos) == None
    decreases n - i
  {
    hide AfterRead, Signed, StringAt, StringLength;
    if i < n {
      NoneStays(image, table, i, n - 1, pos);
    }
  }

  /** The tracked position gives the same seek as the position. */
  lemma Tracked(tell: int, pos: nat, offset: nat)
    requires Congruent(tell, pos)
    ensures Signed(offset - tell) == Signed(offset - pos)
  {
    var q := (tell - pos) / WORD;
    assert tell - pos == q * WORD;
    ModShift(offset - pos, q);
    assert offset - tell == offset - pos - q * WORD;
  }

  lemma StillTracked(at: int, offset: nat, n: nat)
    requires Congruent(at, offset)
    ensures Congruent(Signed(offset + n), at + Signed(n))
    ensures 0 < n < HALF ==> Signed(n) == n
  {
    var a, b, c := (at - offset) / WORD, (offset + n) / WORD, n / WORD;
    assert at - offset == a * WORD;
    assert offset + n == b * WORD + (offset + n) % WORD;
    assert n == c * WORD + n % WORD;
    var x := if (offset + n) % WORD < HALF then b else b + 1;
    var y := if n % WORD < HALF then c else c + 1;
    assert Signed(offset + n) == offset + n - x * WORD;
    assert Signed(n) == n - y * WORD;
    var k := x - y + a;
    assert Signed(offset + n) - (at + Signed(n)) == -k * WORD;
    Multiple(k);
    if 0 < n < HALF { SmallMod(n); }
  }

  /** A number inside a slice of the image. */
  lemma TableWord(image: seq<Byte>, at: nat, size: nat, k: nat, little: bool)
    requires at + size <= |image| && k + 4 <= size
    ensures Read32(image[at..at + size][k..k + 4], little) == At32(image, at + k, little)
  {
    var word := image[at..at + size][k..k + 4];
    assert |word| == 4 && forall i :: 0 <= i < 4 ==> word[i] == image[at + k..at + k + 4][i];
  }

  // ------------------------------------------------------------------- decoding

  /** What decoding gives: for every string its key, its value and the NULs inside the value. */
  ghost predicate Decoded(image: seq<Byte>, entries: seq<Entry>)
    requires Readable(image)
  {
    && |entries| == Count(image)
    && forall i :: 0 <= i < |entries| ==> IsEntry(image, i, entries[i])
  }

  ghost predicate IsEntry(image: seq<Byte>, i: nat, e: Entry)
    requires Readable(image) && i < Count(image)
  {
    && IsString(image, TableAt(image, 12), i, e.key)
    && IsString(image, TableAt(image, 16), i, e.value)
    && (e.value != [] ==> e.variants == Zeros(e.value[..|e.value| - 1]))
  }

  /** Counting NULs with a moving pointer. */
  method CountZeros(value: seq<Byte>) returns (n: nat)
    requires value != []
    ensures n == Zeros(value[..|value| - 1])
  {
    var ch, end := 0, |value| - 1;
    n := 0;
    while ch < end
      invariant 0 <= ch <= end && n == Zeros(value[..ch])
    {
      assert value[..ch + 1][..ch] == value[..ch];
      if value[ch] == 0 {
        n := n + 1;
      }
      ch := ch + 1;
    }
  }

  lemma HeaderWords(image: seq<Byte>, little: bool)
    requires |image| >= HEADER
    ensures var h := image[0..HEADER];
            && Read32(h[0..4], true) == Magic(image)
            && h[4..6] == image[4..6]
            && Read32(h[8..12], little) == At32(image, 8, little)
            && Read32(h[12..16], little) == At32(image, 12, little)
            && Read32(h[16..20], little) == At32(image, 16, little)
  {
    TableWord(image, 0, HEADER, 0, true);
    TableWord(image, 0, HEADER, 8, little);
    TableWord(image, 0, HEADER, 12, little);
    TableWord(image, 0, HEADER, 16, little);
    assert image[0..HEADER][4..6] == image[4..6];
  }

  /** decode_mo2: an image is decoded exactly when it is readable and there is memory for so many
      strings. */
  method DecodeMo(input: Input, memory: nat) returns (r: Option<seq<Entry>>)
    requires |input.image| < HALF && input.pos == 0 && memory < WORD / 16
    modifies input
    ensures r.Some? <==> Readable(input.image) && Count(input.image) <= memory
    ensures r.Some? ==> Decoded(input.image, r.value)
  {
    hide At32, Read32, Read16, AfterStrings;
    var header := input.Read(HEADER);
    if header.None? {
      return None;
    }
    var h := header.value;
    HeaderWords(input.image, IsLittle(input.image));
    var magic := Read32(h[0..4], true);
    if magic != 0x950412de && magic != 0xde120495 {
      return None;
    }
    var little := magic == 0x950412de;
    var major := Read16(h[4..6], little);
    var count := Read32(h[8..12], little);
    if major > 1 || count == 0 || count > memory {
      return None;
    }
    var keyOffset, valueOffset := Read32(h[12..16], little), Read32(h[16..20], little);
    r := ReadTables(input, keyOffset, valueOffset, count);
  }

  /** The two tables, then the strings of each. */
  method ReadTables(input: Input, keyOffset: nat, valueOffset: nat, count: nat) returns (r: Option<seq<Entry>>)
    requires |input.image| < HALF && input.pos == HEADER && HeaderOk(input.image) && count == Count(input.image)
    requires 0 < count < WORD / 16
    requires keyOffset == TableAt(input.image, 12) && valueOffset == TableAt(input.image, 16)
    modifies input
    ensures r.Some? <==> Readable(input.image)
    ensures r.Some? ==> Decoded(input.image, r.value)
  {
    hide At32, HeaderOk, StringIn, AfterStrings, StringsOf, Signed;
    var keyTable, valueTable, keys, values;
    var tell: int := HEADER;
    ReadInside(input.image, HEADER, keyOffset, 8 * count);
    keyTable, tell := input.ReadAt(tell, keyOffset, 8 * count);
    if keyTable.None? {
      return None;
    }
    ReadInside(input.image, input.pos, valueOffset, 8 * count);
    valueTable, tell := input.ReadAt(tell, valueOffset, 8 * count);
    if valueTable.None? {
      return None;
    }
    keys, tell := input.ReadStrings(tell, keyTable.value, 12, count);
    if keys.None? {
      return None;
    }
    values, tell := input.ReadStrings(tell, valueTable.value, 16, count);
    if values.None? {
      return None;
    }
    var entries := JoinEntries(input.image, keys.value, values.value);
    r := Some(entries);
  }

  /** A read of a proper count from a position within the reach of a signed int succeeds exactly
      inside the image. */
  lemma ReadInside(image: seq<Byte>, pos: nat, offset: nat, n: nat)
    requires |image| < HALF && pos < HALF && offset < WORD && 0 < n < HALF
    ensures AfterRead(image, pos, offset, Signed(n)) == if offset + n <= |image| then Some(offset + n) else None
  {
    hide Goes;
    SeekLandsOn(pos, offset);
    SmallMod(n);
  }

  method JoinEntries(image: seq<Byte>, keys: seq<seq<Byte>>, values: seq<seq<Byte>>) returns (entries: seq<Entry>)
    requires Readable(image) && StringsOf(image, 12, keys) && StringsOf(image, 16, values)
    ensures Decoded(image, entries)
  {
    hide At32, Readable, IsString;
    entries := [];
    for i := 0 to |keys|
      invariant |entries| == i
      invariant forall k :: 0 <= k < i ==> IsEntry(image, k, entries[k])
    {
      var n := 0;
      if values[i] != [] {
        n := CountZeros(values[i]);
      }
      entries := entries + [Entry(keys[i], values[i], n)];
    }
  }

  // ------------------------------------------------------------------- which images are readable

  /** A string that is read: inside the image; or, when its length is 2^31 - 1 or more, one for which
      the seek that takes the place of the read does not go before the start. */
  predicate StringAccepted(image: seq<Byte>, table: nat, i: nat)
    requires |image| >= HEADER && table + 8 * (i + 1) <= |image|
  {
    var end := StringAt(image, table, i) + StringLength(image, table, i) + 1;
    if StringLength(image, table, i) + 1 < HALF then end <= |image| else end >= WORD
  }

  /** No string of such a length is said to be at 2^31 or beyond. */
  predicate NearString(image: seq<Byte>, table: nat, i: nat)
    requires |image| >= HEADER && table + 8 * (i + 1) <= |image|
  {
    StringLength(image, table, i) + 1 >= HALF ==> StringAt(image, table, i) < HALF
  }

  /** Both predicates for a whole table. */
  predicate AllAccepted(image: seq<Byte>, table: nat, n: nat)
    requires |image| >= HEADER && table + 8 * n <= |image|
  {
    forall i :: 0 <= i < n ==> StringAccepted(image, table, i)
  }

  predicate AllNear(image: seq<Byte>, table: nat, n: nat)
    requires |image| >= HEADER && table + 8 * n <= |image|
  {
    forall i :: 0 <= i < n ==> NearString(image, table, i)
  }

  /** One string, told by its length and offset alone. */
  lemma OneString(image: seq<Byte>, pos: nat, offset: nat, length: nat)
    requires |image| < HALF && pos < HALF && offset < WORD && length < WORD
    ensures var end, r := offset + length + 1, AfterRead(image, pos, offset, Signed(length + 1));
            && (r.Some? <==> if length + 1 < HALF then end <= |image|
                             else if offset < HALF then end >= WORD
                             else offset - pos < HALF)
            && (r.Some? && (length + 1 < HALF || offset < HALF) ==> r.value < HALF)
  {
    hide Goes, Signed;
    if length + 1 < HALF {
      ReadInside(image, pos, offset, length + 1);
    } else {
      SeekLandsOn(pos, offset);
      LongCount(length + 1);
    }
  }

  /** A count of 2^31 or more is negative as a signed int, or 0. */
  lemma LongCount(n: nat)
    requires HALF <= n <= WORD
    ensures Signed(n) == n - WORD
  {
    if n < WORD { SmallMod(n); }
  }

  lemma {:induction false} TableAccepted(image: seq<Byte>, table: nat, n: nat, pos: nat)
    requires HEADER <= |image| < HALF && table + 8 * n <= |image| && pos < HALF && AllNear(image, table, n)
    ensures AfterStrings(image, table, n, pos).Some? <==> AllAccepted(image, table, n)
    ensures AfterStrings(image, table, n, pos).Some? ==> AfterStrings(image, table, n, pos).value < HALF
  {
    hide At32, AfterRead, Signed;
    if n > 0 {
      TableAccepted(image, table, n - 1, pos);
      assert AllAccepted(image, table, n) <==> AllAccepted(image, table, n - 1) && StringAccepted(image, table, n - 1);
      match AfterStrings(image, table, n - 1, pos)
      case None =>
      case Some(p) =>
        assert NearString(image, table, n - 1);
        OneString(image, p, StringAt(image, table, n - 1), StringLength(image, table, n - 1));
    }
  }

  /** The images this reader decodes, told entry by entry. */
  lemma ReadableExactly(image: seq<Byte>)
    requires |image| < HALF && HeaderOk(image)
    requires TableAt(image, 12) + 8 * Count(image) <= |image| && TableAt(image, 16) + 8 * Count(image) <= |image|
    requires AllNear(image, TableAt(image, 12), Count(image)) && AllNear(image, TableAt(image, 16), Count(image))
    ensures Readable(image) <==>
            && AllAccepted(image, TableAt(image, 12), Count(image))
            && AllAccepted(image, TableAt(image, 16), Count(image))
  {
    hide At32, AfterStrings, AllNear, AllAccepted, Magic, Read16;
    var n, k, v := Count(image), TableAt(image, 12), TableAt(image, 16);
    TableAccepted(image, k, n, v + 8 * n);
    match AfterStrings(image, k, n, v + 8 * n)
    case None =>
    case Some(p) => TableAccepted(image, v, n, p);
  }

  /** So an image with everything in place is decoded. */
  lemma InPlaceIsReadable(image: seq<Byte>)
    requires |image| < HALF && InPlace(image)
    ensures Readable(image)
  {
    hide At32, Readable, Magic, Read16;
    forall field, i | field in {12, 16} && 0 <= i < Count(image)
      ensures NearString(image, TableAt(image, field), i) && StringAccepted(image, TableAt(image, field), i)
    {
      assert StringIn(image, TableAt(image, field), i);
    }
    ReadableExactly(image);
  }
}
