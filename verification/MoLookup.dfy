/** Looking up texts in a decoded catalogue: keys by binary search, plurals by walking a value. */
module MoLookup {
  import opened Bytes
  import opened MoCatalogue

  /** A C string: the bytes before the first NUL. */
  function CStr(s: seq<Byte>): (r: seq<Byte>)
    ensures 0 !in r && r <= s && (|r| < |s| ==> s[|r|] == 0)
  {
    if s == [] || s[0] == 0 then [] else [s[0]] + CStr(s[1..])
  }

  /** strcmp below 0. */
  predicate Less(a: seq<Byte>, b: seq<Byte>) {
    b != [] && (a == [] || a[0] < b[0] || (a[0] == b[0] && Less(a[1..], b[1..])))
  }

  /** It is the first difference that decides, as an unsigned byte; a prefix comes first. */
  lemma {:induction false} LessExactly(a: seq<Byte>, b: seq<Byte>, k: nat)
    requires k <= |a| && k <= |b| && a[..k] == b[..k] && (k < |a| && k < |b| ==> a[k] != b[k])
    ensures Less(a, b) <==> if k < |a| && k < |b| then a[k] < b[k] else |a| < |b|
    ensures k < |a| || k < |b| || a == b
    decreases k
  {
    if k > 0 {
      assert a[0] == a[..k][0] == b[..k][0] == b[0];
      assert a[1..][..k - 1] == a[..k][1..] == b[..k][1..] == b[1..][..k - 1];
      LessExactly(a[1..], b[1..], k - 1);
    }
    if k == |a| == |b| {
      assert a == a[..k] == b[..k] == b;
    }
  }

  lemma {:induction false} LessIrreflexive(a: seq<Byte>)
    ensures !Less(a, a)
  {
    if a != [] {
      LessIrreflexive(a[1..]);
    }
  }

  lemma {:induction false} LessTotal(a: seq<Byte>, b: seq<Byte>)
    ensures a == b || Less(a, b) || Less(b, a)
    ensures !(Less(a, b) && Less(b, a)) && !Less(a, a)
    decreases |a| + |b|
  {
    LessIrreflexive(a);
    if a != [] && b != [] {
      LessTotal(a[1..], b[1..]);
      assert a[0] == b[0] && a[1..] == b[1..] ==> a == [a[0]] + a[1..] == b;
    }
  }

  lemma {:induction false} LessTransitive(a: seq<Byte>, b: seq<Byte>, c: seq<Byte>)
    ensures Less(a, b) && Less(b, c) ==> Less(a, c)
    decreases |a|
  {
    if a != [] && b != [] && c != [] {
      LessTransitive(a[1..], b[1..], c[1..]);
    }
  }

  /** Keys in ascending order, as the format asks. */
  ghost predicate Sorted(entries: seq<Entry>) {
    forall i, j :: 0 <= i < j < |entries| ==> Less(CStr(entries[i].key), CStr(entries[j].key))
  }

  /** The key looked up: context and key joined by an EOT byte. */
  function FullKey(context: Option<seq<Byte>>, key: seq<Byte>): seq<Byte> {
    match context
    case None => CStr(key)
    case Some(c) => CStr(c) + [4] + CStr(key)
  }

  /** A string ends in a NUL, so that it can be used as a C string. */
  predicate EndsInNul(s: seq<Byte>) {
    s != [] && s[|s| - 1] == 0
  }

  ghost predicate KeysEnd(entries: seq<Entry>) {
    forall i :: 0 <= i < |entries| ==> EndsInNul(entries[i].key)
  }

  /** find_value: binary search finds exactly the keys that are present. */
  method FindValue(entries: seq<Entry>, context: Option<seq<Byte>>, key: seq<Byte>) returns (r: Option<nat>)
    requires Sorted(entries) && KeysEnd(entries)
    ensures match r
            case Some(i) => i < |entries| && CStr(entries[i].key) == FullKey(context, key)
            case None => forall i :: 0 <= i < |entries| ==> CStr(entries[i].key) != FullKey(context, key)
  {
    var k := FullKey(context, key);
    var lo, hi := 0, |entries|;
    while lo < hi
      invariant 0 <= lo <= hi <= |entries|
      invariant forall i :: 0 <= i < lo ==> Less(CStr(entries[i].key), k)
      invariant forall i :: hi <= i < |entries| ==> Less(k, CStr(entries[i].key))
    {
      var mid := lo + (hi - lo) / 2;
      var m := CStr(entries[mid].key);
      LessTotal(k, m);
      forall i | 0 <= i < |entries| ensures Less(m, k) && i < mid ==> Less(CStr(entries[i].key), k) {
        LessTransitive(CStr(entries[i].key), m, k);
      }
      forall i | 0 <= i < |entries| ensures Less(k, m) && i > mid ==> Less(k, CStr(entries[i].key)) {
        LessTransitive(k, m, CStr(entries[i].key));
      }
      if k == m {
        return Some(mid);
      } else if Less(k, m) {
        hi := mid;
      } else {
        lo := mid + 1;
      }
    }
    LessTotal(k, k);
    return None;
  }

  // ------------------------------------------------------------------- plurals

  /** get_plural_index, for `variants` NULs inside the value. */
  function PluralIndex(variants: nat, n: int): (r: nat)
    ensures r <= variants
    ensures 1 <= n <= variants ==> r == n - 1
    ensures n <= 0 || n > variants ==> r == variants
  {
    if n <= 0 then variants else if n - 1 < variants then n - 1 else variants
  }

  /** Where the k-th piece of a NUL-separated value starts: after its k-th NUL. */
  predicate StartsPiece(value: seq<Byte>, v: nat, k: nat) {
    v <= |value| && Zeros(value[..v]) == k && (v == 0 || value[v - 1] == 0)
  }

  lemma {:induction false} ZerosSplit(s: seq<Byte>, i: nat, j: nat)
    requires i <= j <= |s|
    ensures Zeros(s[..j]) == Zeros(s[..i]) + Zeros(s[i..j])
    decreases j - i
  {
    if i < j {
      ZerosSplit(s, i, j - 1);
      assert s[..j][..j - 1] == s[..j - 1] && s[i..j][..j - i - 1] == s[i..j - 1];
      assert s[i..j][j - i - 1] == s[j - 1] == s[..j][j - 1];
    } else {
      assert s[i..j] == [];
    }
  }

  lemma {:induction false} NoZeros(s: seq<Byte>)
    ensures Zeros(s) == 0 <==> 0 !in s
  {
    if s != [] {
      NoZeros(s[..|s| - 1]);
      assert s == s[..|s| - 1] + [s[|s| - 1]];
    }
  }

  /** The walk over a value: past as many NULs as the index says.  It never leaves the value, and
      stops at the start of the piece asked for. */
  method PluralStart(e: Entry, n: int) returns (v: nat)
    requires EndsInNul(e.value)
    requires e.variants == Zeros(e.value[..|e.value| - 1])
    ensures v < |e.value| && StartsPiece(e.value, v, PluralIndex(e.variants, n))
  {
    var index := PluralIndex(e.variants, n);
    var end := |e.value| - 1;
    v := 0;
    var i := 0;
    while i < index
      invariant 0 <= i <= index && v <= end && StartsPiece(e.value, v, i)
    {
      v := SkipPiece(e.value, v, i, end);
      i := i + 1;
    }
  }

  /** Step past one NUL. */
  method SkipPiece(value: seq<Byte>, v0: nat, i: nat, end: nat) returns (v: nat)
    requires v0 <= end == |value| - 1 && StartsPiece(value, v0, i) && i < Zeros(value[..end])
    ensures v0 < v <= end && StartsPiece(value, v, i + 1)
  {
    v := v0;
    ZerosSplit(value, v0, end);
    NoZeros(value[v0..end]);
    ghost var z :| v0 <= z < end && value[z] == 0;
    while value[v] != 0
      invariant v0 <= v <= z && 0 !in value[v0..v]
      decreases z - v
    {
      v := v + 1;
    }
    NoZeros(value[v0..v]);
    ZerosSplit(value, v0, v);
    assert value[..v + 1][..v] == value[..v];
    v := v + 1;
  }

  /** Every value ends in a NUL and knows its pieces, as in a decoded well-formed catalogue. */
  ghost predicate Terminated(entries: seq<Entry>) {
    forall i :: 0 <= i < |entries| ==>
      var v := entries[i].value;
      EndsInNul(v) && entries[i].variants == Zeros(v[..|v| - 1])
  }

  /** ok_mo_plural_value_in_context: the piece of the key's value for `n`; for a key that is not
      there, the singular given for 1 and the plural given otherwise. */
  method PluralValue(entries: seq<Entry>, context: Option<seq<Byte>>, key: seq<Byte>, pluralKey: seq<Byte>, n: int)
      returns (r: seq<Byte>)
    requires Sorted(entries) && KeysEnd(entries) && Terminated(entries)
    ensures forall i :: 0 <= i < |entries| && CStr(entries[i].key) == FullKey(context, key) ==>
              exists v: nat :: v < |entries[i].value| && r == CStr(entries[i].value[v..])
                               && StartsPiece(entries[i].value, v, PluralIndex(entries[i].variants, n))
    ensures (forall i :: 0 <= i < |entries| ==> CStr(entries[i].key) != FullKey(context, key)) ==>
              r == if n == 1 then key else pluralKey
  {
    var at := FindValue(entries, context, key);
    match at {
      case Some(i) =>
        var v := PluralStart(entries[i], n);
        r := CStr(entries[i].value[v..]);
        OneEntry(entries, i, FullKey(context, key));
      case None =>
        r := if PluralIndex(1, n) == 0 then key else pluralKey;
    }
  }

  /** Sorted keys are distinct. */
  lemma OneEntry(entries: seq<Entry>, i: nat, k: seq<Byte>)
    requires Sorted(entries) && i < |entries| && CStr(entries[i].key) == k
    ensures forall j :: 0 <= j < |entries| && CStr(entries[j].key) == k ==> j == i
  {
    LessIrreflexive(k);
  }

  // ------------------------------------------------------------------- from image to text

  function KeyIn(image: seq<Byte>, i: nat): seq<Byte>
    requires InPlace(image) && i < Count(image)
  {
    StringBytes(image, TableAt(image, 12), i)
  }

  function ValueIn(image: seq<Byte>, i: nat): (r: seq<Byte>)
    requires InPlace(image) && i < Count(image)
    ensures r != []
  {
    StringBytes(image, TableAt(image, 16), i)
  }

  /** As the format asks: everything is in place, every key and value is followed by a NUL, and the
      keys ascend. */
  ghost predicate WellFormed(image: seq<Byte>) {
    && InPlace(image)
    && (forall i :: 0 <= i < Count(image) ==> EndsInNul(KeyIn(image, i)) && EndsInNul(ValueIn(image, i)))
    && (forall i, j :: 0 <= i < j < Count(image) ==> Less(CStr(KeyIn(image, i)), CStr(KeyIn(image, j))))
  }

  /** A well-formed image gives entries fit for looking up. */
  lemma WellFormedEntries(image: seq<Byte>, entries: seq<Entry>)
    requires |image| < HALF && WellFormed(image) && Readable(image) && Decoded(image, entries)
    ensures InPlace(image) && Sorted(entries) && KeysEnd(entries) && Terminated(entries) && |entries| == Count(image)
    ensures forall i :: 0 <= i < |entries| ==>
              && entries[i].key == KeyIn(image, i) && entries[i].value == ValueIn(image, i)
              && entries[i].variants == Zeros(ValueIn(image, i)[..|ValueIn(image, i)| - 1])
  {
    hide StringBytes, CStr, Less, Zeros, AfterStrings, At32, Magic, Read16;
    forall i | 0 <= i < |entries| ensures entries[i].key == KeyIn(image, i) && entries[i].value == ValueIn(image, i) {
      assert IsEntry(image, i, entries[i]);
      assert StringIn(image, TableAt(image, 12), i) && StringIn(image, TableAt(image, 16), i);
    }
  }

  /** The text is the piece of the i-th value that `n` selects. */
  ghost predicate IsPiece(image: seq<Byte>, i: nat, n: int, text: seq<Byte>)
    requires InPlace(image) && i < Count(image)
  {
    var value := ValueIn(image, i);
    exists v: nat :: v < |value| && text == CStr(value[v..])
                     && StartsPiece(value, v, PluralIndex(Zeros(value[..|value| - 1]), n))
  }

  /** Reading a catalogue and looking a key up in it, told on the image: a key the image holds gives
      the piece of its value that `n` selects, any other the singular or the plural given. */
  method Translate(input: Input, memory: nat, context: Option<seq<Byte>>, key: seq<Byte>, pluralKey: seq<Byte>, n: int)
      returns (r: Option<seq<Byte>>)
    requires |input.image| < HALF && input.pos == 0 && memory < WORD / 16
    requires WellFormed(input.image) || !Readable(input.image)
    modifies input
    ensures r.Some? <==> Readable(input.image) && Count(input.image) <= memory
    ensures r.Some? ==> forall i :: 0 <= i < Count(input.image) && CStr(KeyIn(input.image, i)) == FullKey(context, key) ==>
              IsPiece(input.image, i, n, r.value)
    ensures r.Some? && (forall i :: 0 <= i < Count(input.image) ==> CStr(KeyIn(input.image, i)) != FullKey(context, key)) ==>
              r.value == if n == 1 then key else pluralKey
  {
    hide StringBytes, CStr, Less, Zeros, TableOk, AfterStrings, FullKey, KeysEnd, Sorted, Terminated, Decoded, WellFormed, KeyIn, ValueIn, StartsPiece;
    var entries := DecodeMo(input, memory);
    if entries.None? {
      return None;
    }
    WellFormedEntries(input.image, entries.value);
    var text := PluralValue(entries.value, context, key, pluralKey, n);
    r := Some(text);
    forall i | 0 <= i < Count(input.image) && CStr(KeyIn(input.image, i)) == FullKey(context, key)
      ensures IsPiece(input.image, i, n, text)
    {
      assert entries.value[i].key == KeyIn(input.image, i);
    }
  }
}
