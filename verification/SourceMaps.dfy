/**
Source-map decoding in `kpio-devtools`: Base64 VLQ values (alphabet of section 4
of RFC 4648) and the delta-coded mappings string of Source Map Revision 3.
`i32` arithmetic wraps, and a shift amount is taken modulo 32.
*/
module SourceMaps {
  import opened Wrappers
  import opened Strings
  import opened Bits
  import opened Ints

  // ----- i32 -----

  predicate IsI32(x: int) {
    -0x8000_0000 <= x < 0x8000_0000
  }

  function Shl32(x: int, shift: nat): int {
    ToI32(x * Pow2(shift % 32))
  }

  lemma WrapAdd(a: int, b: int)
    ensures ToI32(ToI32(a) + ToI32(b)) == ToI32(a + b)
  {
  }

  // ----- Base64 -----

  /** The position of `ch as u8` in `A-Za-z0-9+/`. */
  function Digit(ch: char): (d: Option<nat>)
    ensures d.Some? ==> d.value < 64
  {
    var b := ch as int % 256;
    if 65 <= b <= 90 then Some(b - 65)
    else if 97 <= b <= 122 then Some(b - 97 + 26)
    else if 48 <= b <= 57 then Some(b - 48 + 52)
    else if b == 43 then Some(62)
    else if b == 47 then Some(63)
    else None
  }

  function Base64(d: nat): (ch: char)
    requires d < 64
    ensures Digit(ch) == Some(d) && ch != ',' && ch != ';'
  {
    if d < 26 then (d + 65) as char
    else if d < 52 then (d - 26 + 97) as char
    else if d < 62 then (d - 52 + 48) as char
    else if d == 62 then '+' else '/'
  }

  /** The alphabet of section 4 of RFC 4648. */
  const ALPHABET := UPPER_CASE + LOWER_CASE + DECIMAL + "+/"

  lemma LetterAt(d: nat)
    requires d < 64
    ensures |ALPHABET| == 64
    ensures ALPHABET[d] as int
         == if d < 26 then d + 65 else if d < 52 then d + 71 else if d < 62 then d - 4 else if d == 62 then 43 else 47
  {
    UpperCaseAt(d);
    LowerCaseAt(if d >= 26 then d - 26 else 0);
    DecimalAt(if d >= 52 then d - 52 else 0);
  }

  /** A character is a digit exactly when its low byte is in the alphabet, and then its position there. */
  lemma DigitIff(ch: char, d: nat)
    requires d < 64
    ensures |ALPHABET| == 64
    ensures Digit(ch) == Some(d) <==> ALPHABET[d] as int == ch as int % 256
  {
    LetterAt(d);
  }

  predicate NoDigit(ch: char) {
    forall i :: 0 <= i < |ALPHABET| ==> ALPHABET[i] as int != ch as int % 256
  }

  lemma NoDigitIff(ch: char)
    ensures NoDigit(ch) <==> Digit(ch).None?
  {
    if Digit(ch).Some? {
      DigitIff(ch, Digit(ch).value);
    } else {
      forall i | 0 <= i < |ALPHABET| ensures ALPHABET[i] as int != ch as int % 256 {
        LetterAt(0);
        DigitIff(ch, i);
      }
    }
  }

  // ----- decoding -----

  function Signed(value: int): int {
    if value % 2 != 0 then -(value / 2) else value / 2
  }

  /** The low bit is the sign, the rest the magnitude, for every wrapped value. */
  lemma SignedIs(value: int)
    ensures value == if value % 2 == 0 then 2 * Signed(value) else 1 - 2 * Signed(value)
  {
  }

  /** What is left to decode, given the partial value and shift. */
  function Decode(s: string, value: int, shift: nat): seq<int> {
    if s == "" then [] else
    match Digit(s[0])
    case None => Decode(s[1..], value, shift)
    case Some(d) =>
      var v := ToI32(value + Shl32(d % 32, shift));
      if d >= 32 then Decode(s[1..], v, shift + 5)
      else [Signed(v)] + Decode(s[1..], 0, 0)
  }

  method DecodeVlq(segment: string) returns (values: seq<int>)
    ensures values == Decode(segment, 0, 0)
  {
    values := [];
    var value, shift := 0, 0;
    for i := 0 to |segment|
      invariant shift >= 0
      invariant values + Decode(segment[i..], value, shift) == Decode(segment, 0, 0)
    {
      assert segment[i..][0] == segment[i] && segment[i..][1..] == segment[i + 1..];
      var digit := Digit(segment[i]);
      if digit.None? { continue; }
      var continuation := digit.value >= 32;
      value := ToI32(value + Shl32(digit.value % 32, shift));
      if continuation {
        shift := shift + 5;
      } else {
        values := values + [Signed(value)];
        value, shift := 0, 0;
      }
    }
  }

  // ----- the encoding it inverts -----

  function EncodeNat(n: nat): string {
    if n < 32 then [Base64(n)] else [Base64(32 + n % 32)] + EncodeNat(n / 32)
  }

  function ZigZag(v: int): nat {
    if v < 0 then 2 * -v + 1 else 2 * v
  }

  function EncodeAll(vs: seq<int>): string {
    if vs == [] then "" else EncodeNat(ZigZag(vs[0])) + EncodeAll(vs[1..])
  }

  /** A digit shifted to its place; a shift amount counts modulo 32. */
  function Place(d: nat, shift: nat): int {
    d * Pow2(shift % 32)
  }

  lemma DecodeMore(d: nat, sum: int, shift: nat, tail: string)
    requires d < 32
    ensures Decode([Base64(32 + d)] + tail, ToI32(sum), shift)
         == Decode(tail, ToI32(sum + Place(d, shift)), shift + 5)
  {
    hide Pow2, ToI32, Base64, Signed;
    var s := [Base64(32 + d)] + tail;
    assert s[0] == Base64(32 + d) && s[1..] == tail;
    WrapAdd(sum, d * Pow2(shift % 32));
  }

  lemma DecodeLast(d: nat, sum: int, shift: nat, tail: string)
    requires d < 32
    ensures Decode([Base64(d)] + tail, ToI32(sum), shift)
         == [Signed(ToI32(sum + Place(d, shift)))] + Decode(tail, 0, 0)
  {
    hide Pow2, ToI32, Base64, Signed;
    var s := [Base64(d)] + tail;
    assert s[0] == Base64(d) && s[1..] == tail;
    WrapAdd(sum, d * Pow2(shift % 32));
  }

  /** Decoding the digits of `n` adds `n << shift` to the partial value, modulo 2^32. */
  lemma {:induction false} DecodeDigits(n: nat, sum: int, shift: nat, total: int, rest: string)
    requires shift <= 30 && shift % 5 == 0 && n < Pow2(35 - shift) && total == sum + n * Pow2(shift)
    ensures Decode(EncodeNat(n) + rest, ToI32(sum), shift) == [Signed(ToI32(total))] + Decode(rest, 0, 0)
    decreases n
  {
    hide ToI32, Decode, Base64, Signed, Pow2;
    assert shift % 32 == shift;
    if n < 32 {
      DecodeLast(n, sum, shift, rest);
    } else {
      DigitsRemain(n, shift);
      var next := sum + n % 32 * Pow2(shift);
      DecodeMore(n % 32, sum, shift, EncodeNat(n / 32) + rest);
      DecodeDigits(n / 32, next, shift + 5, total, rest);
      assert EncodeNat(n) + rest == [Base64(32 + n % 32)] + (EncodeNat(n / 32) + rest);
    }
  }

  /** The low five bits and the rest of a number make it up, one digit further on. */
  lemma DigitsRemain(n: nat, shift: nat)
    requires shift <= 30 && shift % 5 == 0 && 32 <= n < Pow2(35 - shift)
    ensures shift <= 25 && n / 32 < Pow2(35 - (shift + 5))
    ensures n % 32 * Pow2(shift) + n / 32 * Pow2(shift + 5) == n * Pow2(shift)
  {
    FivePowers(35 - shift);
    FivePowers(shift + 5);
    SplitProduct(n, Pow2(shift));
    assert shift != 30 by { assert Pow2(5) == 32 * Pow2(0) == 32; }
  }

  lemma FivePowers(k: nat)
    requires k >= 5
    ensures Pow2(k) == 32 * Pow2(k - 5)
  {
    assert Pow2(k) == 2 * Pow2(k - 1) == 4 * Pow2(k - 2) == 8 * Pow2(k - 3) == 16 * Pow2(k - 4);
  }

  lemma SplitProduct(n: nat, p: nat)
    ensures (n % 32) * p + (n / 32) * (32 * p) == n * p
  {
    var q, r := n / 32, n % 32;
    assert n == 32 * q + r;
    assert (32 * q + r) * p == 32 * q * p + r * p;
    assert q * (32 * p) == 32 * q * p;
  }

  lemma DecodeZigZag(v: int, rest: string)
    requires IsI32(v)
    ensures Decode(EncodeNat(ZigZag(v)) + rest, 0, 0) == [Signed(ToI32(ZigZag(v)))] + Decode(rest, 0, 0)
  {
    assert Pow2(35) == 0x8_0000_0000 by { PowersOfTwo(); }
    DecodeDigits(ZigZag(v), 0, 0, ZigZag(v), rest);
  }

  lemma PowersOfTwo()
    ensures Pow2(35) == 0x8_0000_0000
  {
    FivePowers(35);
    FivePowers(30);
    FivePowers(25);
    FivePowers(20);
    FivePowers(15);
    FivePowers(10);
    FivePowers(5);
  }

  predicate Small(v: int) {
    -0x4000_0000 < v < 0x4000_0000
  }

  lemma SignedIff(v: int)
    requires IsI32(v)
    ensures Signed(ToI32(ZigZag(v))) == v <==> Small(v)
  {
    var n: int := ZigZag(v);
    if Small(v) {
      assert ToI32(n) == n;
    } else if v == -0x8000_0000 {
      assert ToI32(n) == 1;
    } else {
      assert ToI32(n) == n - 0x1_0000_0000;
      HalfOf(v, n);
    }
  }

  lemma HalfOf(v: int, n: int)
    requires n == ZigZag(v)
    ensures v >= 0 ==> Signed(n - 0x1_0000_0000) == v - 0x8000_0000
    ensures v < 0 ==> Signed(n - 0x1_0000_0000) == v + 0x8000_0000
  {
  }

  /** A single `i32` survives the round trip exactly when its magnitude is below 2^30. */
  lemma VlqRoundTripIff(v: int)
    requires IsI32(v)
    ensures Decode(EncodeAll([v]), 0, 0) == [v] <==> Small(v)
  {
    hide ToI32, Signed, EncodeNat, Decode, ZigZag;
    DecodeZigZag(v, "");
    SignedIff(v);
    assert EncodeAll([v]) == EncodeNat(ZigZag(v)) + "" by { assert [v][1..] == []; }
    NothingLeft(0, 0);
    assert [Signed(ToI32(ZigZag(v)))][0] == Signed(ToI32(ZigZag(v)));
  }

  lemma NothingLeft(value: int, shift: nat)
    ensures Decode("", value, shift) == []
  {
  }

  /** `decode_vlq` inverts the encoding for every list of values below 2^30 in magnitude. */
  lemma {:induction false} DecodeInvertsEncode(vs: seq<int>)
    requires forall v :: v in vs ==> Small(v)
    ensures Decode(EncodeAll(vs), 0, 0) == vs
  {
    hide ToI32, Signed, EncodeNat, Decode, ZigZag;
    if vs == [] {
      NothingLeft(0, 0);
    } else {
      assert vs[0] in vs;
      DecodeZigZag(vs[0], EncodeAll(vs[1..]));
      SignedIff(vs[0]);
      DecodeInvertsEncode(vs[1..]);
      assert vs == [vs[0]] + vs[1..];
    }
  }

  // ----- decoding any text -----

  predicate FiveBits(ds: seq<nat>) {
    forall i :: 0 <= i < |ds| ==> ds[i] < 32
  }

  /** The characters a digit sequence is written with: all but the last carry the continuation bit. */
  function Written(ds: seq<nat>): string
    requires FiveBits(ds)
  {
    if ds == [] then "" else [Base64(if |ds| == 1 then ds[0] else 32 + ds[0])] + Written(ds[1..])
  }

  /** The digits from a shift amount on, five bits each. */
  function Weighted(ds: seq<nat>, shift: nat): int {
    if ds == [] then 0 else Place(ds[0], shift) + Weighted(ds[1..], shift + 5)
  }

  /** A number of any length decodes to the sum of its shifted digits, modulo 2^32. */
  lemma {:induction false} DecodeNumber(ds: seq<nat>, shift: nat, sum: int, rest: string)
    requires ds != [] && FiveBits(ds)
    ensures Decode(Written(ds) + rest, ToI32(sum), shift)
         == [Signed(ToI32(sum + Weighted(ds, shift)))] + Decode(rest, 0, 0)
    decreases |ds|
  {
    hide Place, ToI32, Base64, Signed, Decode;
    if |ds| == 1 {
      assert ds[1..] == [] && Weighted([], shift + 5) == 0;
      assert Written(ds) == [Base64(ds[0])];
      DecodeLast(ds[0], sum, shift, rest);
    } else {
      var tail := Written(ds[1..]) + rest;
      assert Written(ds) + rest == [Base64(32 + ds[0])] + tail;
      DecodeMore(ds[0], sum, shift, tail);
      DecodeNumber(ds[1..], shift + 5, sum + Place(ds[0], shift), rest);
    }
  }

  /** Characters outside the alphabet are skipped wherever they stand. */
  lemma {:induction false} DecodeSkips(a: string, ch: char, b: string, value: int, shift: nat)
    requires NoDigit(ch)
    ensures Decode(a + [ch] + b, value, shift) == Decode(a + b, value, shift)
    decreases |a|
  {
    NoDigitIff(ch);
    var s := a + [ch] + b;
    hide ToI32, Signed, Shl32, NoDigit;
    if a == [] {
      assert s[0] == ch && s[1..] == b && a + b == b;
    } else {
      assert s[0] == a[0] == (a + b)[0] && s[1..] == a[1..] + [ch] + b && (a + b)[1..] == a[1..] + b;
      match Digit(a[0])
      case None => DecodeSkips(a[1..], ch, b, value, shift);
      case Some(d) =>
        var v := ToI32(value + Shl32(d % 32, shift));
        if d >= 32 { DecodeSkips(a[1..], ch, b, v, shift + 5); } else { DecodeSkips(a[1..], ch, b, 0, 0); }
    }
  }

  /** A number that is not finished, as every character has the continuation bit, adds nothing. */
  lemma {:induction false} DecodeUnfinished(s: string, value: int, shift: nat)
    requires forall ch :: ch in s ==> NoDigit(ch) || (Digit(ch).Some? && Digit(ch).value >= 32)
    ensures Decode(s, value, shift) == []
    decreases |s|
  {
    hide ToI32, Signed, Shl32, NoDigit;
    if s != "" {
      assert s[0] in s && forall ch :: ch in s[1..] ==> ch in s;
      NoDigitIff(s[0]);
      match Digit(s[0])
      case None => DecodeUnfinished(s[1..], value, shift);
      case Some(d) => DecodeUnfinished(s[1..], ToI32(value + Shl32(d % 32, shift)), shift + 5);
    }
  }

  // ----- encoded text holds no separators -----

  lemma {:induction false} EncodedNatIsPlain(n: nat)
    ensures EncodeNat(n) != "" && ',' !in EncodeNat(n) && ';' !in EncodeNat(n)
  {
    if n >= 32 { EncodedNatIsPlain(n / 32); }
  }

  lemma {:induction false} EncodedIsPlain(vs: seq<int>)
    ensures ',' !in EncodeAll(vs) && ';' !in EncodeAll(vs) && (vs != [] ==> EncodeAll(vs) != "")
  {
    if vs != [] {
      EncodedNatIsPlain(ZigZag(vs[0]));
      EncodedIsPlain(vs[1..]);
    }
  }

  // ----- parse_mappings -----

  datatype Mapping = Mapping(
    generatedLine: int, generatedColumn: int,
    source: Option<string>, sourceLine: Option<int>, sourceColumn: Option<int>, name: Option<string>)

  /** The running positions; `column` is reset at every generated line. */
  datatype Cursor = Cursor(line: int, column: int, source: int, sourceLine: int, sourceColumn: int, name: int)

  datatype SourceMap = SourceMap(sources: seq<string>, names: seq<string>)

  /** `get(index as usize).cloned()`: a negative `i32` is beyond any vector. */
  function Lookup(table: seq<string>, index: int): Option<string> {
    if 0 <= index < |table| then Some(table[index]) else None
  }

  function Advance(c: Cursor, v: seq<int>): Cursor
    requires v != []
  {
    var c1 := c.(column := ToI32(c.column + v[0]));
    if |v| < 4 then c1 else
    var c2 := c1.(source := ToI32(c.source + v[1]), sourceLine := ToI32(c.sourceLine + v[2]),
                  sourceColumn := ToI32(c.sourceColumn + v[3]));
    if |v| < 5 then c2 else c2.(name := ToI32(c.name + v[4]))
  }

  function MappingAt(m: SourceMap, c: Cursor, fields: nat): Mapping {
    if fields < 4 then Mapping(c.line, c.column, None, None, None, None) else
    Mapping(c.line, c.column, Lookup(m.sources, c.source), Some(c.sourceLine), Some(c.sourceColumn),
            if fields < 5 then None else Lookup(m.names, c.name))
  }

  function ParseSegments(m: SourceMap, c: Cursor, segments: seq<string>): (seq<Mapping>, Cursor)
    decreases |segments|
  {
    if segments == [] then ([], c) else
    var values := if segments[0] == "" then [] else Decode(segments[0], 0, 0);
    if values == [] then ParseSegments(m, c, segments[1..]) else
    var c1 := Advance(c, values);
    var (rest, last) := ParseSegments(m, c1, segments[1..]);
    ([MappingAt(m, c1, |values|)] + rest, last)
  }

  function ParseGroups(m: SourceMap, c: Cursor, groups: seq<string>): seq<Mapping>
    decreases |groups|
  {
    if groups == [] then [] else
    var (here, last) := ParseSegments(m, c.(column := 0), Split(groups[0], ','));
    here + ParseGroups(m, last.(line := ToI32(last.line + 1)), groups[1..])
  }

  const START := Cursor(0, 0, 0, 0, 0, 0)

  /** One segment: add its fields to the running positions and read off the mapping. */
  method ReadSegment(m: SourceMap, start: Cursor, values: seq<int>) returns (c: Cursor, mapping: Mapping)
    requires values != []
    ensures c == Advance(start, values) && mapping == MappingAt(m, c, |values|)
  {
    c := start.(column := ToI32(start.column + values[0]));
    mapping := Mapping(c.line, c.column, None, None, None, None);
    if |values| >= 4 {
      c := c.(source := ToI32(c.source + values[1]),
              sourceLine := ToI32(c.sourceLine + values[2]),
              sourceColumn := ToI32(c.sourceColumn + values[3]));
      mapping := mapping.(source := Lookup(m.sources, c.source),
                          sourceLine := Some(c.sourceLine), sourceColumn := Some(c.sourceColumn));
      if |values| >= 5 {
        c := c.(name := ToI32(c.name + values[4]));
        mapping := mapping.(name := Lookup(m.names, c.name));
      }
    }
  }

  /** One generated line: the inner loop over its segments. */
  method ParseGroup(m: SourceMap, start: Cursor, group: string) returns (mappings: seq<Mapping>, c: Cursor)
    ensures (mappings, c) == ParseSegments(m, start.(column := 0), Split(group, ','))
  {
    hide Decode, Split, Advance, MappingAt;
    mappings := [];
    c := start.(column := 0);
    var segments := Split(group, ',');
    ghost var whole := ParseSegments(m, c, segments);
    assert segments[0..] == segments;
    for k := 0 to |segments|
      invariant mappings + ParseSegments(m, c, segments[k..]).0 == whole.0
      invariant ParseSegments(m, c, segments[k..]).1 == whole.1
    {
      ghost var rest := segments[k..];
      assert rest[0] == segments[k] && rest[1..] == segments[k + 1..];
      if segments[k] == "" { continue; }
      var values := DecodeVlq(segments[k]);
      if values == [] { continue; }
      var mapping;
      c, mapping := ReadSegment(m, c, values);
      assert mappings + ([mapping] + ParseSegments(m, c, rest[1..]).0)
          == (mappings + [mapping]) + ParseSegments(m, c, rest[1..]).0;
      mappings := mappings + [mapping];
    }
    assert segments[|segments|..] == [] && ParseSegments(m, c, []) == ([], c);
    assert mappings == whole.0 && c == whole.1;
  }

  method ParseMappings(m: SourceMap, text: string) returns (mappings: seq<Mapping>)
    ensures mappings == ParseGroups(m, START, Split(text, ';'))
  {
    hide ToI32, Decode, Split, Lookup, ParseSegments;
    mappings := [];
    var c := START;
    var groups := Split(text, ';');
    for g := 0 to |groups|
      invariant mappings + ParseGroups(m, c, groups[g..]) == ParseGroups(m, START, groups)
    {
      assert groups[g..][0] == groups[g] && groups[g..][1..] == groups[g + 1..];
      var here, last := ParseGroup(m, c, groups[g]);
      assert mappings + (here + ParseGroups(m, last.(line := ToI32(last.line + 1)), groups[g + 1..]))
          == (mappings + here) + ParseGroups(m, last.(line := ToI32(last.line + 1)), groups[g + 1..]);
      mappings := mappings + here;
      c := last.(line := ToI32(last.line + 1));
    }
  }

  // ----- the table it inverts -----

  /**
  One entry of a mapping table, in absolute positions.  A segment may carry
  fields beyond those it is read for, and one without a digit stands for nothing.
  */
  datatype Entry =
    | Junk(text: string)
    | Bare(column: int, extra: seq<int>)
    | Mapped(column: int, source: int, sourceLine: int, sourceColumn: int)
    | Named(column: int, source: int, sourceLine: int, sourceColumn: int, name: int, extra: seq<int>)

  /** The differences a writer emits for an entry, from the positions written last. */
  function Deltas(c: Cursor, e: Entry): seq<int> {
    match e
    case Junk(_) => []
    case Bare(k, extra) => [k - c.column] + extra
    case Mapped(k, s, l, d) => [k - c.column, s - c.source, l - c.sourceLine, d - c.sourceColumn]
    case Named(k, s, l, d, n, extra) =>
      [k - c.column, s - c.source, l - c.sourceLine, d - c.sourceColumn, n - c.name] + extra
  }

  function Moved(c: Cursor, e: Entry): Cursor {
    match e
    case Junk(_) => c
    case Bare(k, _) => c.(column := k)
    case Mapped(k, s, l, d) => c.(column := k, source := s, sourceLine := l, sourceColumn := d)
    case Named(k, s, l, d, n, _) => c.(column := k, source := s, sourceLine := l, sourceColumn := d, name := n)
  }

  /** The mappings an entry of generated line `line` stands for: one, with the table entries at its indices, or none. */
  function Meaning(m: SourceMap, line: int, e: Entry): seq<Mapping> {
    match e
    case Junk(_) => []
    case Bare(k, _) => [Mapping(line, k, None, None, None, None)]
    case Mapped(k, s, l, d) =>
      [Mapping(line, k, if 0 <= s < |m.sources| then Some(m.sources[s]) else None, Some(l), Some(d), None)]
    case Named(k, s, l, d, n, _) =>
      [Mapping(line, k, if 0 <= s < |m.sources| then Some(m.sources[s]) else None, Some(l), Some(d),
               if 0 <= n < |m.names| then Some(m.names[n]) else None)]
  }

  /** Only as many fields as the entry is read for, and nothing that separates segments or lines. */
  predicate WellShaped(e: Entry) {
    match e
    case Junk(text) => forall ch :: ch in text ==> NoDigit(ch) && ch != ',' && ch != ';'
    case Bare(_, extra) => |extra| <= 2
    case _ => true
  }

  predicate InRange(c: Cursor) {
    IsI32(c.line) && IsI32(c.column) && IsI32(c.source) && IsI32(c.sourceLine) && IsI32(c.sourceColumn) && IsI32(c.name)
  }

  /** Absolute positions are `i32` and neighbours differ by less than 2^30. */
  predicate Writable(c: Cursor, es: seq<Entry>)
    decreases |es|
  {
    es == [] ||
    (&& WellShaped(es[0])
     && InRange(Moved(c, es[0]))
     && (forall v :: v in Deltas(c, es[0]) ==> Small(v))
     && Writable(Moved(c, es[0]), es[1..]))
  }

  function AfterLine(c: Cursor, es: seq<Entry>): Cursor
    decreases |es|
  {
    if es == [] then c else AfterLine(Moved(c, es[0]), es[1..])
  }

  function SegmentText(c: Cursor, e: Entry): string {
    if e.Junk? then e.text else EncodeAll(Deltas(c, e))
  }

  function Segments(c: Cursor, es: seq<Entry>): seq<string>
    decreases |es|
  {
    if es == [] then [] else [SegmentText(c, es[0])] + Segments(Moved(c, es[0]), es[1..])
  }

  function LineText(c: Cursor, es: seq<Entry>): string {
    if es == [] then "" else Join(Segments(c, es), ',')
  }

  function NextLine(c: Cursor): Cursor {
    c.(line := c.line + 1, column := 0)
  }

  predicate TableWritable(c: Cursor, lines: seq<seq<Entry>>)
    decreases |lines|
  {
    lines == [] ||
    (IsI32(c.line + 1) && Writable(c, lines[0]) && TableWritable(NextLine(AfterLine(c, lines[0])), lines[1..]))
  }

  function LineTexts(c: Cursor, lines: seq<seq<Entry>>): seq<string>
    decreases |lines|
  {
    if lines == [] then [] else [LineText(c, lines[0])] + LineTexts(NextLine(AfterLine(c, lines[0])), lines[1..])
  }

  /** The mappings string of a table: column deltas restart on every line, the others carry over. */
  function TableText(lines: seq<seq<Entry>>): string {
    if lines == [] then "" else Join(LineTexts(START, lines), ';')
  }

  function LineMeanings(m: SourceMap, line: int, es: seq<Entry>): seq<Mapping> {
    if es == [] then [] else Meaning(m, line, es[0]) + LineMeanings(m, line, es[1..])
  }

  function Meanings(m: SourceMap, line: int, lines: seq<seq<Entry>>): seq<Mapping>
    decreases |lines|
  {
    if lines == [] then [] else LineMeanings(m, line, lines[0]) + Meanings(m, line + 1, lines[1..])
  }

  lemma WrapNoOp(x: int)
    requires IsI32(x)
    ensures ToI32(x) == x
  {
  }

  /** Adding the differences back lands on the entry. */
  lemma AdvanceByDeltas(m: SourceMap, c: Cursor, e: Entry)
    requires InRange(Moved(c, e)) && WellShaped(e) && !e.Junk?
    ensures Advance(c, Deltas(c, e)) == Moved(c, e)
    ensures [MappingAt(m, Moved(c, e), |Deltas(c, e)|)] == Meaning(m, c.line, e)
  {
    hide ToI32, NoDigit;
    var d := Moved(c, e);
    WrapNoOp(d.column);
    WrapNoOp(d.source);
    WrapNoOp(d.sourceLine);
    WrapNoOp(d.sourceColumn);
    WrapNoOp(d.name);
  }

  /** One segment read back, before the rest of its line. */
  lemma ParseWrittenSegment(m: SourceMap, c: Cursor, e: Entry, rest: seq<string>)
    requires WellShaped(e) && InRange(Moved(c, e)) && forall v :: v in Deltas(c, e) ==> Small(v)
    ensures var (mappings, last) := ParseSegments(m, Moved(c, e), rest);
      ParseSegments(m, c, [SegmentText(c, e)] + rest) == (Meaning(m, c.line, e) + mappings, last)
  {
    hide Decode, EncodeAll, Advance, MappingAt, Small, NoDigit;
    var segments := [SegmentText(c, e)] + rest;
    assert segments[1..] == rest;
    if e.Junk? {
      DecodeUnfinished(e.text, 0, 0);
      var (mappings, last) := ParseSegments(m, c, rest);
      assert [] + mappings == mappings;
    } else {
      DecodeInvertsEncode(Deltas(c, e));
      EncodedIsPlain(Deltas(c, e));
      AdvanceByDeltas(m, c, e);
    }
  }

  lemma {:induction false} ParseWrittenLine(m: SourceMap, c: Cursor, es: seq<Entry>)
    requires Writable(c, es)
    ensures ParseSegments(m, c, Segments(c, es)) == (LineMeanings(m, c.line, es), AfterLine(c, es))
    ensures AfterLine(c, es).line == c.line
    decreases |es|
  {
    hide Meaning, SegmentText, Small, WellShaped;
    if es != [] {
      ParseWrittenLine(m, Moved(c, es[0]), es[1..]);
      ParseWrittenSegment(m, c, es[0], Segments(Moved(c, es[0]), es[1..]));
    }
  }

  lemma SegmentIsPlain(c: Cursor, e: Entry)
    requires WellShaped(e)
    ensures ',' !in SegmentText(c, e) && ';' !in SegmentText(c, e)
  {
    hide NoDigit;
    EncodedIsPlain(Deltas(c, e));
  }

  lemma {:induction false} SegmentsArePlain(c: Cursor, es: seq<Entry>)
    requires Writable(c, es)
    ensures |Segments(c, es)| == |es| && forall p :: p in Segments(c, es) ==> ',' !in p && ';' !in p
    decreases |es|
  {
    hide SegmentText, WellShaped, Small;
    if es != [] {
      var s, rest := SegmentText(c, es[0]), Segments(Moved(c, es[0]), es[1..]);
      SegmentIsPlain(c, es[0]);
      SegmentsArePlain(Moved(c, es[0]), es[1..]);
      assert forall p :: p in [s] + rest ==> p == s || p in rest;
    }
  }

  lemma ParseLineText(m: SourceMap, c: Cursor, es: seq<Entry>)
    requires Writable(c, es)
    ensures ParseSegments(m, c, Split(LineText(c, es), ',')) == (LineMeanings(m, c.line, es), AfterLine(c, es))
    ensures ';' !in LineText(c, es) && AfterLine(c, es).line == c.line
  {
    SegmentsArePlain(c, es);
    ParseWrittenLine(m, c, es);
    if es == [] {
      assert Split("", ',') == [""];
      assert ParseSegments(m, c, [""]) == ParseSegments(m, c, [""][1..]);
    } else {
      SplitJoin(Segments(c, es), ',');
      JoinHasNo(Segments(c, es), ',', ';');
    }
  }

  lemma {:induction false} ParseWrittenTable(m: SourceMap, c: Cursor, lines: seq<seq<Entry>>)
    requires c.column == 0 && TableWritable(c, lines)
    ensures ParseGroups(m, c, LineTexts(c, lines)) == Meanings(m, c.line, lines)
    decreases |lines|
  {
    hide Split, ParseSegments, LineText, Writable, AfterLine, ToI32;
    if lines != [] {
      ParseLineText(m, c, lines[0]);
      var last := AfterLine(c, lines[0]);
      WrapNoOp(last.line + 1);
      var texts := LineTexts(c, lines);
      assert texts[0] == LineText(c, lines[0]) && texts[1..] == LineTexts(NextLine(last), lines[1..]);
      ParseWrittenTable(m, NextLine(last), lines[1..]);
      ColumnIgnored(m, last.(line := last.line + 1), texts[1..]);
    }
  }

  /** The column is reset on entry to a line, so its old value does not matter. */
  lemma ColumnIgnored(m: SourceMap, c: Cursor, groups: seq<string>)
    ensures ParseGroups(m, c, groups) == ParseGroups(m, c.(column := 0), groups)
  {
    hide Split, ParseSegments;
  }

  lemma {:induction false} LineTextsArePlain(c: Cursor, lines: seq<seq<Entry>>)
    requires TableWritable(c, lines)
    ensures |LineTexts(c, lines)| == |lines| && forall p :: p in LineTexts(c, lines) ==> ';' !in p
    decreases |lines|
  {
    hide LineText, Writable;
    if lines != [] {
      var rest := LineTexts(NextLine(AfterLine(c, lines[0])), lines[1..]);
      ParseLineText(SourceMap([], []), c, lines[0]);
      LineTextsArePlain(NextLine(AfterLine(c, lines[0])), lines[1..]);
      assert forall p :: p in [LineText(c, lines[0])] + rest ==> p == LineText(c, lines[0]) || p in rest;
    }
  }

  /** Writing any table of absolute positions and parsing the text gives the table back. */
  lemma ParseInvertsWrite(m: SourceMap, lines: seq<seq<Entry>>)
    requires TableWritable(START, lines)
    ensures ParseGroups(m, START, Split(TableText(lines), ';')) == Meanings(m, 0, lines)
  {
    if lines == [] {
      assert Split("", ';') == [""] && Split("", ',') == [""];
      assert [""][1..] == [];
      assert ParseSegments(m, START, [""]) == ([], START);
      assert ParseGroups(m, START, [""]) == [] + ParseGroups(m, START.(line := ToI32(1)), []);
    } else {
      hide Split, LineTexts, ParseGroups, Meanings;
      LineTextsArePlain(START, lines);
      SplitJoin(LineTexts(START, lines), ';');
      ParseWrittenTable(m, START, lines);
    }
  }
}
