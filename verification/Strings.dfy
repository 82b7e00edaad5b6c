/** `str::find`, `str::split` and `str::trim` on ASCII text, and the inverse of splitting. */
module Strings {
  import opened Wrappers

  predicate OccursAt(url: string, k: nat, part: string) {
    k + |part| <= |url| && url[k..k + |part|] == part
  }

  /** `url[from..].find(part)`, as a position in `url`. */
  function Find(url: string, from: nat, part: string): (at: Option<nat>)
    requires from <= |url|
    ensures at.Some? ==> from <= at.value && OccursAt(url, at.value, part)
    ensures at.Some? ==> forall k :: from <= k < at.value ==> !OccursAt(url, k, part)
    ensures at.None? ==> forall k :: from <= k ==> !OccursAt(url, k, part)
    decreases |url| - from
  {
    if OccursAt(url, from, part) then Some(from)
    else if from == |url| then None
    else Find(url, from + 1, part)
  }

  function Split(s: string, c: char): (parts: seq<string>)
    ensures parts != []
  {
    if s == "" then [""]
    else if s[0] == c then [""] + Split(s[1..], c)
    else
      var r := Split(s[1..], c);
      [[s[0]] + r[0]] + r[1..]
  }

  function Join(parts: seq<string>, c: char): string
    requires parts != []
  {
    if |parts| == 1 then parts[0] else parts[0] + [c] + Join(parts[1..], c)
  }

  lemma {:induction false} SplitPrefix(p: string, c: char, rest: string)
    requires c !in p
    ensures Split(p + rest, c) == [p + Split(rest, c)[0]] + Split(rest, c)[1..]
  {
    if p == "" {
      assert p + rest == rest;
      assert "" + Split(rest, c)[0] == Split(rest, c)[0];
    } else {
      var s := p + rest;
      assert s[0] == p[0] && p[0] in p && s[1..] == p[1..] + rest;
      SplitPrefix(p[1..], c, rest);
      assert [p[0]] + (p[1..] + Split(rest, c)[0]) == p + Split(rest, c)[0];
    }
  }

  lemma {:induction false} SplitJoin(parts: seq<string>, c: char)
    requires parts != [] && forall p :: p in parts ==> c !in p
    ensures Split(Join(parts, c), c) == parts
  {
    assert parts[0] in parts;
    if |parts| == 1 {
      SplitPrefix(parts[0], c, "");
      assert parts[0] + "" == parts[0];
      assert parts == [parts[0]];
    } else {
      var rest := [c] + Join(parts[1..], c);
      assert Join(parts, c) == parts[0] + rest;
      assert rest[0] == c && rest[1..] == Join(parts[1..], c);
      SplitJoin(parts[1..], c);
      SplitPrefix(parts[0], c, rest);
      assert Split(rest, c) == [""] + parts[1..];
      assert parts[0] + "" == parts[0];
    }
  }

  lemma {:induction false} JoinHasNo(parts: seq<string>, c: char, d: char)
    requires parts != [] && c != d && forall p :: p in parts ==> d !in p
    ensures d !in Join(parts, c)
  {
    assert parts[0] in parts;
    if |parts| > 1 { JoinHasNo(parts[1..], c, d); }
  }

  /** Splitting loses nothing and leaves no separator in a part. */
  lemma {:induction false} JoinSplit(s: string, c: char)
    ensures Join(Split(s, c), c) == s && forall p :: p in Split(s, c) ==> c !in p
  {
    if s != "" {
      var r := Split(s[1..], c);
      JoinSplit(s[1..], c);
      assert r == [r[0]] + r[1..] && r[0] in r;
      if s[0] == c {
        assert ([""] + r)[1..] == r;
        assert Join([""] + r, c) == "" + [c] + Join(r, c) == s;
      } else {
        var t := [[s[0]] + r[0]] + r[1..];
        assert t[1..] == r[1..];
        assert Join(t, c) == [s[0]] + Join(r, c) == s;
      }
    }
  }

  // ----- letters, digits and white space -----

  const UPPER_CASE := "ABCDEFGHIJKLMNOPQRSTUVWXYZ"
  const LOWER_CASE := "abcdefghijklmnopqrstuvwxyz"
  const DECIMAL := "0123456789"

  lemma UpperCaseAt(d: nat)
    ensures |UPPER_CASE| == 26 && (d < 26 ==> UPPER_CASE[d] as int == d + 65)
  {
  }

  lemma LowerCaseAt(d: nat)
    ensures |LOWER_CASE| == 26 && (d < 26 ==> LOWER_CASE[d] as int == d + 97)
  {
  }

  lemma DecimalAt(d: nat)
    ensures |DECIMAL| == 10 && (d < 10 ==> DECIMAL[d] as int == d + 48)
  {
  }

  lemma InUpperCase(c: char)
    ensures c in UPPER_CASE <==> 'A' <= c <= 'Z'
  {
    UpperCaseAt(if 'A' <= c <= 'Z' then c as int - 65 else 0);
    forall i: nat | i < |UPPER_CASE| ensures 'A' <= UPPER_CASE[i] <= 'Z' { UpperCaseAt(i); }
  }

  lemma InLowerCase(c: char)
    ensures c in LOWER_CASE <==> 'a' <= c <= 'z'
  {
    LowerCaseAt(if 'a' <= c <= 'z' then c as int - 97 else 0);
    forall i: nat | i < |LOWER_CASE| ensures 'a' <= LOWER_CASE[i] <= 'z' { LowerCaseAt(i); }
  }

  lemma InDecimal(c: char)
    ensures c in DECIMAL <==> '0' <= c <= '9'
  {
    DecimalAt(if '0' <= c <= '9' then c as int - 48 else 0);
    forall i: nat | i < |DECIMAL| ensures '0' <= DECIMAL[i] <= '9' { DecimalAt(i); }
  }

  predicate IsSpace(c: char) {
    c == ' ' || '\t' <= c <= '\r'
  }

  /** White space is the space, the tab, the line and form feeds and the carriage return. */
  lemma SpaceIff(c: char)
    ensures IsSpace(c) <==> c as int in {9, 10, 11, 12, 13, 32}
  {
  }

  // ----- trimming -----

  function TrimStart(s: string): string {
    if s != "" && IsSpace(s[0]) then TrimStart(s[1..]) else s
  }

  function TrimEnd(s: string): string {
    if s != "" && IsSpace(s[|s| - 1]) then TrimEnd(s[..|s| - 1]) else s
  }

  function Trim(s: string): string {
    TrimEnd(TrimStart(s))
  }

  ghost predicate Trimmed(s: string) {
    s == "" || (!IsSpace(s[0]) && !IsSpace(s[|s| - 1]))
  }

  lemma {:induction false} TrimEndIs(s: string)
    ensures TrimEnd(s) <= s && (TrimEnd(s) == "" || !IsSpace(TrimEnd(s)[|TrimEnd(s)| - 1]))
  {
    if s != "" && IsSpace(s[|s| - 1]) { TrimEndIs(s[..|s| - 1]); }
  }

  lemma {:induction false} TrimStartIs(s: string)
    ensures TrimStart(s) == "" || !IsSpace(TrimStart(s)[0])
  {
    if s != "" && IsSpace(s[0]) { TrimStartIs(s[1..]); }
  }

  predicate AllSpace(s: string) {
    forall i :: 0 <= i < |s| ==> IsSpace(s[i])
  }

  /** Trimming cuts off white space at both ends, all of it and nothing else. */
  lemma TrimIs(s: string) returns (before: string, after: string)
    ensures s == before + Trim(s) + after && AllSpace(before) && AllSpace(after) && Trimmed(Trim(s))
  {
    TrimIsTrimmed(s);
    before := StartCut(s);
    after := EndCut(TrimStart(s));
  }

  lemma {:induction false} StartCut(s: string) returns (cut: string)
    ensures s == cut + TrimStart(s) && AllSpace(cut)
  {
    cut := "";
    if s != "" && IsSpace(s[0]) {
      cut := StartCut(s[1..]);
      cut := [s[0]] + cut;
    }
  }

  lemma {:induction false} EndCut(s: string) returns (cut: string)
    ensures s == TrimEnd(s) + cut && AllSpace(cut)
  {
    cut := "";
    if s != "" && IsSpace(s[|s| - 1]) {
      cut := EndCut(s[..|s| - 1]);
      cut := cut + [s[|s| - 1]];
    }
  }

  lemma TrimIsTrimmed(s: string)
    ensures Trimmed(Trim(s))
    ensures Trimmed(s) ==> Trim(s) == s
  {
    TrimStartIs(s);
    TrimEndIs(TrimStart(s));
  }
}
