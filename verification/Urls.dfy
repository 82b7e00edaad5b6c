/** URL parsing, printing and resolution in `kpio-browser`, on ASCII text. */
module Urls {
  import opened Wrappers
  import opened Strings
  import opened Ints

  datatype Url = Url(
    scheme: string, host: string, port: Option<U16>, path: string,
    query: Option<string>, fragment: Option<string>, original: string)

  datatype ParseResult = Ok(url: Url) | InvalidUrl(text: string)

  // ----- characters -----

  function LowerChar(c: char): char {
    if 'A' <= c <= 'Z' then (c as int + 32) as char else c
  }

  function Lower(s: string): (t: string)
    ensures |t| == |s| && forall i :: 0 <= i < |s| ==> t[i] == LowerChar(s[i])
  {
    seq(|s|, i requires 0 <= i < |s| => LowerChar(s[i]))
  }

  /** Exactly the upper-case letters change, each to the letter at its place in the lower-case alphabet. */
  lemma LowerIs(c: char, i: nat)
    requires i < 26
    ensures |UPPER_CASE| == |LOWER_CASE| == 26 && LowerChar(UPPER_CASE[i]) == LOWER_CASE[i]
    ensures c !in UPPER_CASE ==> LowerChar(c) == c
  {
    UpperCaseAt(i);
    LowerCaseAt(i);
    InUpperCase(c);
  }

  // ----- ports -----

  function Decimal(n: nat): string {
    if n < 10 then [(n + 48) as char] else Decimal(n / 10) + [(n % 10 + 48) as char]
  }

  function DigitsValue(s: string): Option<nat> {
    if s == "" then Some(0) else
    var v := DigitsValue(s[..|s| - 1]);
    var c := s[|s| - 1];
    if v.Some? && '0' <= c <= '9' then Some(10 * v.value + (c as int - 48)) else None
  }

  /** `str::parse::<u16>`: an optional plus, then decimal digits within range. */
  function ParseU16(s: string): Option<U16> {
    var t := if s != "" && s[0] == '+' then s[1..] else s;
    if t == "" then None else
    var v := DigitsValue(t);
    if v.Some? && v.value < 0x1_0000 then Some(v.value) else None
  }

  lemma {:induction false} DecimalValue(n: nat)
    ensures DigitsValue(Decimal(n)) == Some(n) && Decimal(n) != ""
    ensures forall c :: c in Decimal(n) ==> '0' <= c <= '9'
  {
    var s := Decimal(n);
    if n < 10 {
      assert s[..|s| - 1] == "";
    } else {
      assert s[..|s| - 1] == Decimal(n / 10);
      DecimalValue(n / 10);
    }
  }

  lemma PortRoundTrip(n: U16)
    ensures ParseU16(Decimal(n)) == Some(n)
  {
    DecimalValue(n);
    assert Decimal(n)[0] in Decimal(n);
  }

  function Zeros(n: nat): string {
    seq(n, _ => '0')
  }

  lemma {:induction false} DigitsAreDecimal(s: string) returns (z: nat)
    requires s != "" && DigitsValue(s).Some?
    ensures s == Zeros(z) + Decimal(DigitsValue(s).value)
  {
    var init, c := s[..|s| - 1], s[|s| - 1];
    var n := DigitsValue(s).value;
    if init == "" {
      z := 0;
      assert DigitsValue("") == Some(0) && s == [c];
    } else {
      z := DigitsAreDecimal(init);
      var v := DigitsValue(init).value;
      assert s == init + [c] && n / 10 == v && n % 10 == c as int - 48;
      if v == 0 {
        z := z + 1;
        assert Decimal(0) == "0" && Zeros(z) == Zeros(z - 1) + "0";
      } else {
        assert Decimal(n) == Decimal(v) + [c];
      }
    }
  }

  lemma {:induction false} ZerosAddNothing(z: nat, s: string)
    requires DigitsValue(s).Some?
    ensures DigitsValue(Zeros(z) + s) == DigitsValue(s)
  {
    var t := Zeros(z) + s;
    if s != "" {
      assert t[..|t| - 1] == Zeros(z) + s[..|s| - 1];
      ZerosAddNothing(z, s[..|s| - 1]);
    } else if z > 0 {
      assert t[..|t| - 1] == Zeros(z - 1) + "" && t[|t| - 1] == '0';
      ZerosAddNothing(z - 1, "");
    }
  }

  /** The number in decimal, after `z` zeros and perhaps a plus sign. */
  predicate WrittenPort(s: string, z: nat, n: nat) {
    s == Zeros(z) + Decimal(n) || s == "+" + (Zeros(z) + Decimal(n))
  }

  /** A port is read from a decimal number below 2^16, with leading zeros and a plus sign allowed, and nothing else. */
  lemma ParseU16Iff(s: string, n: nat)
    ensures ParseU16(s) == Some(n) <==> n < 0x1_0000 && exists z: nat :: WrittenPort(s, z, n)
  {
    if ParseU16(s) == Some(n) { PortIsWritten(s, n); }
    hide ParseU16, WrittenPort;
    forall z: nat | n < 0x1_0000 && WrittenPort(s, z, n) ensures ParseU16(s) == Some(n) { WrittenPortIs(s, z, n); }
  }

  lemma PortIsWritten(s: string, n: nat)
    requires ParseU16(s) == Some(n)
    ensures n < 0x1_0000 && exists z: nat :: WrittenPort(s, z, n)
  {
    hide Decimal, DigitsValue, Zeros;
    var t := if s != "" && s[0] == '+' then s[1..] else s;
    var z := DigitsAreDecimal(t);
    assert s == t || s == "+" + t;
    assert WrittenPort(s, z, n);
  }

  lemma WrittenPortIs(s: string, z: nat, n: nat)
    requires n < 0x1_0000 && WrittenPort(s, z, n)
    ensures ParseU16(s) == Some(n)
  {
    var d := Zeros(z) + Decimal(n);
    DecimalValue(n);
    hide Decimal, DigitsValue, Zeros;
    ZerosAddNothing(z, Decimal(n));
    NoPlus(z, n);
    assert s == d || (s[0] == '+' && s[1..] == d);
  }

  lemma NoPlus(z: nat, n: nat)
    ensures var d := Zeros(z) + Decimal(n); d != "" && d[0] != '+'
  {
    DecimalValue(n);
    assert Decimal(n)[0] in Decimal(n);
  }

  // ----- cutting at a separator -----

  /** The text before the first `c`, and the text after it if there is one. */
  function CutAt(s: string, c: char): (string, Option<string>) {
    var p := Find(s, 0, [c]);
    if p.Some? then (s[..p.value], Some(s[p.value + 1..])) else (s, None)
  }

  lemma CutJoined(a: string, c: char, b: string)
    requires c !in a
    ensures CutAt(a + [c] + b, c) == (a, Some(b))
  {
    var s := a + [c] + b;
    assert s[|a|..|a| + 1] == [c];
    forall k | 0 <= k < |a| ensures !OccursAt(s, k, [c]) {
      assert s[k..k + 1] == [a[k]] && a[k] in a;
    }
    assert OccursAt(s, |a|, [c]);
    assert s[..|a|] == a && s[|a| + 1..] == b;
  }

  lemma CutNothing(a: string, c: char)
    requires c !in a
    ensures CutAt(a, c) == (a, None)
  {
    forall k | 0 <= k < |a| ensures !OccursAt(a, k, [c]) {
      assert a[k..k + 1] == [a[k]] && a[k] in a;
    }
  }

  lemma CutParts(s: string, c: char)
    ensures var (a, b) := CutAt(s, c);
      c !in a && s == if b.Some? then a + [c] + b.value else a
  {
    var p := Find(s, 0, [c]);
    var (a, b) := CutAt(s, c);
    forall k | 0 <= k < |a| ensures a[k] != c {
      assert !OccursAt(s, k, [c]);
      assert s[k..k + 1] == [s[k]];
    }
    if p.Some? { assert s[p.value..p.value + 1] == [c]; }
  }

  // ----- printing and parsing -----

  function Origin(u: Url): string {
    u.scheme + "://" + u.host + (if u.port.Some? then ":" + Decimal(u.port.value) else "")
  }

  function Href(u: Url): string {
    Origin(u) + u.path
      + (if u.query.Some? then "?" + u.query.value else "")
      + (if u.fragment.Some? then "#" + u.fragment.value else "")
  }

  function NewUrl(original: string): Url {
    Url("", "", None, "/", None, None, original)
  }

  predicate SpecialScheme(scheme: string) {
    scheme == "about" || scheme == "data" || scheme == "javascript"
  }

  function SpecialPrefix(input: string): Option<string> {
    if "about:" <= input then Some("about")
    else if "data:" <= input then Some("data")
    else if "javascript:" <= input then Some("javascript")
    else None
  }

  /** The scheme and what follows it; `https` when none is written. */
  function CutScheme(input: string): (string, string) {
    var p := Find(input, 0, "://");
    if p.Some? then (Lower(input[..p.value]), input[p.value + 3..])
    else if "//" <= input then ("https", input[2..])
    else ("https", input)
  }

  function CutPath(rest: string): (string, string) {
    var p := Find(rest, 0, "/");
    if p.Some? then (rest[..p.value], rest[p.value..]) else (rest, "/")
  }

  function ParseUrl(text: string): ParseResult {
    var input := Trim(text);
    var special := SpecialPrefix(input);
    if special.Some? then
      Ok(NewUrl(text).(scheme := special.value, path := input[|special.value| + 1..]))
    else
      var (scheme, rest0) := CutScheme(input);
      var (rest1, fragment) := CutAt(rest0, '#');
      var (rest2, query) := CutAt(rest1, '?');
      var (hostPort, path) := CutPath(rest2);
      var (host, portText) := CutAt(hostPort, ':');
      var port := if portText.Some? then ParseU16(portText.value) else None;
      if host == "" && !SpecialScheme(scheme) then InvalidUrl(text)
      else Ok(Url(scheme, Lower(host), port, path, query, fragment, text))
  }

  // ----- which URLs survive printing and parsing -----

  predicate NoneOf(s: string, cs: string) {
    forall i :: 0 <= i < |s| ==> s[i] !in cs
  }

  predicate IsLower(s: string) {
    Lower(s) == s
  }

  ghost predicate WellFormed(u: Url) {
    && IsLower(u.scheme) && Find(u.scheme, 0, "://").None?
    && u.host != "" && IsLower(u.host) && NoneOf(u.host, "#?/:")
    && u.path != "" && u.path[0] == '/' && NoneOf(u.path, "#?")
    && (u.query.Some? ==> NoneOf(u.query.value, "#"))
    && Trimmed(Href(u))
    && SpecialPrefix(Href(u)).None?
  }

  function PortText(u: Url): string {
    if u.port.Some? then ":" + Decimal(u.port.value) else ""
  }

  function QueryText(u: Url): string {
    if u.query.Some? then "?" + u.query.value else ""
  }

  function FragmentText(u: Url): string {
    if u.fragment.Some? then "#" + u.fragment.value else ""
  }

  /** The scheme ends at the first `://` even when it ends in a colon or slash. */
  lemma CutSchemeJoined(scheme: string, rest: string)
    requires IsLower(scheme) && Find(scheme, 0, "://").None?
    ensures CutScheme(scheme + "://" + rest) == (scheme, rest)
  {
    var s, n := scheme + "://" + rest, |scheme|;
    assert s[n..n + 3] == "://";
    forall k | 0 <= k < n ensures !OccursAt(s, k, "://") {
      var w := s[k..k + 3];
      if k + 3 <= n {
        assert w == scheme[k..k + 3] && !OccursAt(scheme, k, "://");
      } else {
        assert w[n - k] == s[n] == ':';
      }
    }
    assert OccursAt(s, n, "://");
    assert s[..n] == scheme && s[n + 3..] == rest;
  }

  lemma CutPathJoined(hostPort: string, path: string)
    requires NoneOf(hostPort, "/") && path != "" && path[0] == '/'
    ensures CutPath(hostPort + path) == (hostPort, path)
  {
    var s, n := hostPort + path, |hostPort|;
    forall k | 0 <= k < n ensures !OccursAt(s, k, "/") {
      assert s[k..k + 1] == [hostPort[k]];
      assert "/"[0] == '/' && hostPort[k] !in "/";
    }
    assert s[n..n + 1] == "/";
    assert OccursAt(s, n, "/");
    assert s[..n] == hostPort && s[n..] == path;
  }

  lemma NoneOfNotIn(s: string, cs: string, c: char)
    requires NoneOf(s, cs) && c in cs
    ensures c !in s
  {
  }

  lemma CutOptional(a: string, c: char, b: Option<string>)
    requires c !in a
    ensures CutAt(a + (if b.Some? then [c] + b.value else ""), c) == (a, b)
  {
    if b.Some? {
      CutJoined(a, c, b.value);
      assert a + ([c] + b.value) == a + [c] + b.value;
    } else {
      CutNothing(a, c);
      assert a + "" == a;
    }
  }

  lemma HostPortRoundTrip(u: Url)
    requires NoneOf(u.host, "#?/:")
    ensures NoneOf(u.host + PortText(u), "#?/")
    ensures var (host, text) := CutAt(u.host + PortText(u), ':');
      host == u.host && u.port == if text.Some? then ParseU16(text.value) else None
  {
    hide Decimal, ParseU16, CutAt;
    NoneOfNotIn(u.host, "#?/:", ':');
    HostPlain(u.host);
    if u.port.Some? {
      var d := Decimal(u.port.value);
      PortPlain(u.port.value);
      PortRoundTrip(u.port.value);
      CutOptional(u.host, ':', Some(d));
      assert u.host + PortText(u) == u.host + (":" + d);
      NoneOfConcat(u.host, ":" + d, "#?/");
    } else {
      CutOptional(u.host, ':', None);
      assert u.host + "" == u.host;
    }
  }

  lemma HostPlain(host: string)
    requires NoneOf(host, "#?/:")
    ensures NoneOf(host, "#?/")
  {
    forall i | 0 <= i < |host| ensures host[i] !in "#?/" {
      assert "#?/:"[0] == '#' && "#?/:"[1] == '?' && "#?/:"[2] == '/';
    }
  }

  lemma PortPlain(n: U16)
    ensures NoneOf(":" + Decimal(n), "#?/")
  {
    hide Decimal;
    DecimalValue(n);
    var t := ":" + Decimal(n);
    forall i | 0 <= i < |t| ensures t[i] !in "#?/" {
      if i > 0 { assert t[i] == Decimal(n)[i - 1] && t[i] in Decimal(n); }
    }
  }

  /** Printing a well-formed URL and parsing the text gives back every component. */
  lemma PrintThenParse(u: Url)
    requires WellFormed(u)
    ensures ParseUrl(Href(u)) == Ok(u.(original := Href(u)))
  {
    hide Trim, Lower, Find, CutAt, CutPath, CutScheme, ParseU16, Decimal, SpecialPrefix;
    var text := Href(u);
    var hostPort := u.host + PortText(u);
    var a2 := hostPort + u.path;
    var a3 := a2 + QueryText(u);
    var rest := a3 + FragmentText(u);
    TrimIsTrimmed(text);
    assert text == u.scheme + "://" + rest;
    CutSchemeJoined(u.scheme, rest);
    HostPortRoundTrip(u);
    NoHash(u, hostPort);
    CutOptional(a3, '#', u.fragment);
    NoneOfNotIn(a2, "?", '?');
    CutOptional(a2, '?', u.query);
    CutPathJoined(hostPort, u.path);
    assert !SpecialScheme(u.scheme) by { SchemeNotSpecial(u, rest); }
  }

  lemma NoHash(u: Url, hostPort: string)
    requires NoneOf(hostPort, "#?/") && NoneOf(u.path, "#?") && (u.query.Some? ==> NoneOf(u.query.value, "#"))
    ensures NoneOf(hostPort + u.path, "?") && '#' !in hostPort + u.path + QueryText(u) && NoneOf(hostPort, "/")
  {
    forall i | 0 <= i < |hostPort| ensures hostPort[i] !in "?" && hostPort[i] != '#' && hostPort[i] !in "/" {
      assert "#?/"[0] == '#' && "#?/"[1] == '?' && "#?/"[2] == '/';
    }
    forall i | 0 <= i < |u.path| ensures u.path[i] !in "?" && u.path[i] != '#' {
      assert "#?"[0] == '#' && "#?"[1] == '?';
    }
    if u.query.Some? {
      forall i | 0 <= i < |u.query.value| ensures u.query.value[i] != '#' { assert "#"[0] == '#'; }
    }
  }

  lemma SchemeNotSpecial(u: Url, rest: string)
    requires SpecialPrefix(u.scheme + "://" + rest).None?
    ensures !SpecialScheme(u.scheme)
  {
    var t := u.scheme + "://" + rest;
    assert u.scheme == "about" ==> "about:" <= t;
    assert u.scheme == "data" ==> "data:" <= t;
    assert u.scheme == "javascript" ==> "javascript:" <= t;
  }

  // ----- only well-formed URLs survive -----

  lemma LowerIsLower(s: string)
    ensures IsLower(Lower(s))
  {
    assert Lower(Lower(s)) == Lower(s);
  }

  /** Lowering neither adds nor removes a separator. */
  lemma LowerKeepsSeparators(s: string, cs: string)
    requires cs == "#?/:" && NoneOf(s, cs)
    ensures NoneOf(Lower(s), cs)
  {
    forall i | 0 <= i < |s| ensures Lower(s)[i] !in cs {
      assert s[i] != cs[0] && s[i] != cs[1] && s[i] != cs[2] && s[i] != cs[3];
      forall j | 0 <= j < |cs| ensures Lower(s)[i] != cs[j] { }
    }
  }

  lemma LowerKeepsNoScheme(s: string, p: nat)
    requires p <= |s| && forall k :: 0 <= k < p ==> !OccursAt(s, k, "://")
    ensures Find(Lower(s[..p]), 0, "://").None?
  {
    var t := Lower(s[..p]);
    forall k: nat ensures !OccursAt(t, k, "://") {
      if k + 3 <= p {
        assert !OccursAt(s, k, "://");
        LowerColonSlashes(s[k..k + 3]);
        assert t[k..k + 3] == Lower(s[k..k + 3]);
      }
    }
  }

  lemma LowerColonSlashes(w: string)
    ensures Lower(w) == "://" ==> w == "://"
  {
    if Lower(w) == "://" {
      forall i | 0 <= i < 3 ensures w[i] == "://"[i] { assert Lower(w)[i] == LowerChar(w[i]); }
    }
  }

  /** What the general branch of the parser always produces. */
  ghost predicate Parsed(u: Url) {
    && IsLower(u.scheme) && Find(u.scheme, 0, "://").None?
    && IsLower(u.host) && NoneOf(u.host, "#?/:") && (u.host == "" ==> SpecialScheme(u.scheme))
    && u.path != "" && u.path[0] == '/' && NoneOf(u.path, "#?")
    && (u.query.Some? ==> NoneOf(u.query.value, "#"))
    && (u.scheme != "" ==> !IsSpace(u.scheme[0]))
    && !IsSpace(Last(u))
  }

  /** The last character printed for a URL whose path is not empty. */
  function Last(u: Url): char
    requires u.path != ""
  {
    if u.fragment.Some? then (if u.fragment.value == "" then '#' else u.fragment.value[|u.fragment.value| - 1])
    else if u.query.Some? then (if u.query.value == "" then '?' else u.query.value[|u.query.value| - 1])
    else u.path[|u.path| - 1]
  }

  lemma CutSchemeShape(input: string)
    requires Trimmed(input)
    ensures var (scheme, rest) := CutScheme(input);
      && IsLower(scheme) && Find(scheme, 0, "://").None?
      && (scheme != "" ==> !IsSpace(scheme[0]))
      && (rest == "" || !IsSpace(rest[|rest| - 1]))
  {
    var p := Find(input, 0, "://");
    if p.Some? {
      LowerIsLower(input[..p.value]);
      LowerKeepsNoScheme(input, p.value);
    } else {
      assert IsLower("https");
      forall k: nat ensures !OccursAt("https", k, "://") {
        if k + 3 <= 5 { assert "https"[k..k + 3][0] == "https"[k] != ':'; }
      }
    }
  }

  lemma CutPathShape(rest: string)
    ensures var (hostPort, path) := CutPath(rest);
      && '/' !in hostPort && path != "" && path[0] == '/'
      && (rest == hostPort + path || (rest == hostPort && path == "/"))
  {
    var p := Find(rest, 0, "/");
    var (hostPort, path) := CutPath(rest);
    forall k | 0 <= k < |hostPort| ensures hostPort[k] != '/' {
      assert !OccursAt(rest, k, "/") && rest[k..k + 1] == [rest[k]];
    }
    if p.Some? { assert rest[p.value..p.value + 1] == "/" && path[0] == rest[p.value..p.value + 1][0]; }
  }

  lemma CutAtLast(s: string, c: char)
    requires s != "" ==> !IsSpace(s[|s| - 1])
    ensures var (a, b) := CutAt(s, c);
      && (b.Some? && b.value != "" ==> !IsSpace(b.value[|b.value| - 1]))
      && (b.None? ==> a == s)
  {
    CutParts(s, c);
  }

  lemma SubPlain(a: string, b: string, s: string, c: char)
    requires s == a + b && c !in s
    ensures c !in a && c !in b
  {
    forall i | 0 <= i < |a| ensures a[i] != c { assert s[i] == a[i]; }
    forall i | 0 <= i < |b| ensures b[i] != c { assert s[|a| + i] == b[i]; }
  }

  /** Every result of the general branch has the parsed shape. */
  lemma ParseShape(text: string)
    requires SpecialPrefix(Trim(text)).None? && ParseUrl(text).Ok?
    ensures Parsed(ParseUrl(text).url)
  {
    hide Trim, Lower, Find, CutAt, CutPath, CutScheme, ParseU16, SpecialPrefix, IsLower;
    var input, u := Trim(text), ParseUrl(text).url;
    TrimIsTrimmed(text);
    CutSchemeShape(input);
    var (scheme, rest0) := CutScheme(input);
    var (rest1, fragment) := CutAt(rest0, '#');
    CutParts(rest0, '#');
    CutAtLast(rest0, '#');
    var (rest2, query) := CutAt(rest1, '?');
    CutParts(rest1, '?');
    var (hostPort, path) := CutPath(rest2);
    CutPathShape(rest2);
    var (host, portText) := CutAt(hostPort, ':');
    CutParts(hostPort, ':');
    LowerIsLower(host);
    PlainPieces(rest1, rest2, query, hostPort, path, host, portText);
    LowerKeepsSeparators(host, "#?/:");
    LastIsPlain(rest0, rest1, fragment, rest2, query, hostPort, path, u);
  }

  lemma PlainPieces(rest1: string, rest2: string, query: Option<string>, hostPort: string, path: string,
                    host: string, portText: Option<string>)
    requires '#' !in rest1 && '?' !in rest2 && rest1 == (if query.Some? then rest2 + "?" + query.value else rest2)
    requires '/' !in hostPort && (rest2 == hostPort + path || (rest2 == hostPort && path == "/"))
    requires ':' !in host && hostPort == (if portText.Some? then host + ":" + portText.value else host)
    ensures NoneOf(host, "#?/:") && NoneOf(path, "#?") && (query.Some? ==> NoneOf(query.value, "#"))
  {
    if query.Some? {
      assert rest1 == rest2 + ("?" + query.value);
      SubPlain(rest2, "?" + query.value, rest1, '#');
      SubPlain("?", query.value, "?" + query.value, '#');
    }
    if rest2 == hostPort + path {
      SubPlain(hostPort, path, rest2, '#');
      SubPlain(hostPort, path, rest2, '?');
    }
    if portText.Some? {
      var tail := ":" + portText.value;
      assert hostPort == host + tail;
      SubPlain(host, tail, hostPort, '#');
      SubPlain(host, tail, hostPort, '?');
      SubPlain(host, tail, hostPort, '/');
    }
  }

  lemma LastIsPlain(rest0: string, rest1: string, fragment: Option<string>, rest2: string, query: Option<string>,
                    hostPort: string, path: string, u: Url)
    requires rest0 != "" ==> !IsSpace(rest0[|rest0| - 1])
    requires rest0 == if fragment.Some? then rest1 + "#" + fragment.value else rest1
    requires rest1 == if query.Some? then rest2 + "?" + query.value else rest2
    requires path != "" && (rest2 == hostPort + path || (rest2 == hostPort && path == "/"))
    requires u.path == path && u.query == query && u.fragment == fragment
    ensures !IsSpace(Last(u))
  {
  }

  lemma HrefEnds(u: Url)
    requires u.path != ""
    ensures Href(u) != "" && Href(u)[|Href(u)| - 1] == Last(u)
    ensures Href(u)[0] == if u.scheme == "" then ':' else u.scheme[0]
  {
    hide Decimal;
    var head := Origin(u);
    assert head[0] == if u.scheme == "" then ':' else u.scheme[0];
    var t := head + u.path + QueryText(u) + FragmentText(u);
    assert Href(u) == t;
    if u.fragment.Some? {
      assert t == (head + u.path + QueryText(u) + "#") + u.fragment.value;
    } else if u.query.Some? {
      assert t == (head + u.path + "?") + u.query.value;
    } else {
      assert t == head + u.path;
    }
  }

  /** A special URL never survives: its `//` is read back as part of the path. */
  lemma SpecialDoesNotSurvive(u: Url)
    requires SpecialPrefix(Trim(Href(u))).Some?
    ensures ParseUrl(Href(u)) != Ok(u.(original := Href(u)))
  {
    hide Trim, Decimal, SpecialPrefix;
    var t := Href(u);
    SpecialPrefixIs(Trim(t));
    var sp := SpecialPrefix(Trim(t)).value;
    if u.scheme == sp && u.host == "" && u.port.None? && u.query.None? && u.fragment.None? {
      assert t == sp + "://" + u.path;
      SpecialPathGrows(sp, u.path);
    }
  }

  lemma SpecialPrefixIs(input: string)
    ensures var sp := SpecialPrefix(input);
      sp.Some? ==> SpecialScheme(sp.value) && |input| > |sp.value|
  {
  }

  lemma SpecialPathGrows(sp: string, path: string)
    requires SpecialScheme(sp)
    ensures var input := Trim(sp + "://" + path);
      |input| > |sp| ==> input[|sp| + 1..] != path
  {
    hide Trim;
    var t := sp + "://" + path;
    var input := Trim(t);
    TrimIsTrimmed(t);
    assert t[0] == sp[0];
    if path == "" || !IsSpace(path[|path| - 1]) {
      assert t[|t| - 1] == if path == "" then '/' else path[|path| - 1];
      assert Trimmed(t);
    } else if |input| > |sp| + 1 {
      assert input[|sp| + 1..][|input| - |sp| - 2] == input[|input| - 1];
    }
  }

  lemma SurvivorIsWellFormed(u: Url)
    requires ParseUrl(Href(u)) == Ok(u.(original := Href(u)))
    ensures WellFormed(u)
  {
    hide Trim, Lower, Find, CutAt, CutPath, CutScheme, ParseU16, Decimal, SpecialPrefix, IsLower, NoneOf;
    var t := Href(u);
    if SpecialPrefix(Trim(t)).Some? { SpecialDoesNotSurvive(u); }
    ParseShape(t);
    assert Parsed(u.(original := t));
    HrefEnds(u);
    TrimIsTrimmed(t);
    assert t == u.scheme + "://" + (u.host + PortText(u) + u.path + QueryText(u) + FragmentText(u));
    SchemeNotSpecial(u, u.host + PortText(u) + u.path + QueryText(u) + FragmentText(u));
  }

  /** Printing then parsing gives a URL back exactly when the URL is well formed. */
  lemma RoundTripIff(u: Url)
    ensures ParseUrl(Href(u)) == Ok(u.(original := Href(u))) <==> WellFormed(u)
  {
    hide ParseUrl, WellFormed;
    if WellFormed(u) { PrintThenParse(u); }
    if ParseUrl(Href(u)) == Ok(u.(original := Href(u))) { SurvivorIsWellFormed(u); }
  }

  /** The trimmed text is not read as a special URL, and its scheme does not become special in lower case. */
  predicate PlainScheme(text: string) {
    SpecialPrefix(Trim(text)).None? && SpecialPrefix(CutScheme(Trim(text)).0 + "://").None?
  }

  /**
  Parsing normalizes: printing what was parsed and parsing again changes
  nothing, exactly for texts whose scheme is not special in any case.
  */
  lemma NormalizedIff(text: string)
    requires ParseUrl(text).Ok?
    ensures var u := ParseUrl(text).url;
      ParseUrl(Href(u)) == Ok(u.(original := Href(u))) <==> PlainScheme(text)
  {
    var u := ParseUrl(text).url;
    RoundTripIff(u);
    if SpecialPrefix(Trim(text)).None? {
      HostUrlNormalized(text);
      SpecialIffScheme(text);
    } else {
      SpecialHref(text);
    }
  }

  lemma SpecialIffScheme(text: string)
    requires ParseUrl(text).Ok? && SpecialPrefix(Trim(text)).None?
    ensures SpecialPrefix(Href(ParseUrl(text).url)).None? <==> PlainScheme(text)
  {
    hide Trim, SpecialPrefix, Decimal, Lower, CutAt, CutPath, CutScheme, ParseU16;
    var u := ParseUrl(text).url;
    var rest := u.host + PortText(u) + u.path + QueryText(u) + FragmentText(u);
    HrefSplit(u);
    assert u.scheme == CutScheme(Trim(text)).0;
    SpecialByScheme(u.scheme, rest, "");
    assert u.scheme + "://" + "" == u.scheme + "://";
  }

  lemma HostUrlNormalized(text: string)
    requires ParseUrl(text).Ok? && SpecialPrefix(Trim(text)).None?
    ensures var u := ParseUrl(text).url; SpecialPrefix(Href(u)).None? ==> WellFormed(u)
  {
    hide ParseUrl, Trim, SpecialPrefix, Decimal, Find, NoneOf, IsLower;
    var u := ParseUrl(text).url;
    ParseShape(text);
    HrefEnds(u);
    var rest := u.host + PortText(u) + u.path + QueryText(u) + FragmentText(u);
    assert Href(u) == u.scheme + "://" + rest;
    if SpecialPrefix(Href(u)).None? { SchemeNotSpecial(u, rest); }
  }

  lemma SpecialHref(text: string)
    requires SpecialPrefix(Trim(text)).Some?
    ensures ParseUrl(text).Ok? && SpecialPrefix(Href(ParseUrl(text).url)).Some?
  {
    hide Trim;
    var u := ParseUrl(text).url;
    assert Href(u) == u.scheme + "://" + u.path;
    assert u.scheme + ":" <= Href(u);
  }

  /** An upper-case special scheme is accepted as a host URL, but its printed form is not. */
  lemma UpperCaseSpecialScheme()
    ensures ParseUrl("ABOUT://h").Ok?
    ensures var u := ParseUrl("ABOUT://h").url; ParseUrl(Href(u)) != Ok(u.(original := Href(u)))
  {
    hide Trim, Lower, Find, CutAt, CutScheme, CutPath;
    var t := "ABOUT://h";
    TrimIsTrimmed(t);
    AboutScheme();
    PlainHost();
    CutNothing("h", '#');
    CutNothing("h", '?');
    CutNothing("h", ':');
    var u := ParseUrl(t).url;
    assert u.scheme == "about";
    assert "about:" <= Href(u);
    RoundTripIff(u);
  }

  lemma AboutScheme()
    ensures CutScheme("ABOUT://h") == ("about", "h")
  {
    var t := "ABOUT://h";
    assert OccursAt(t, 5, "://") by { assert t[5..8] == "://"; }
    forall k | 0 <= k < 5 ensures !OccursAt(t, k, "://") { assert t[k..k + 3][0] == t[k] != ':'; }
    assert t[..5] == "ABOUT" && t[8..] == "h";
    assert Lower("ABOUT") == "about";
  }

  lemma PlainHost()
    ensures CutPath("h") == ("h", "/")
  {
    forall k: nat ensures !OccursAt("h", k, "/") { if k == 0 { assert "h"[0..1] == "h"; } }
  }

  // ----- what parsing reads -----

  /** The three special prefixes: everything after the colon is the path. */
  lemma ParseSpecial(text: string, scheme: string, rest: string)
    requires scheme == "about" || scheme == "data" || scheme == "javascript"
    requires Trim(text) == scheme + ":" + rest
    ensures ParseUrl(text) == Ok(Url(scheme, "", None, rest, None, None, text))
  {
    hide Trim;
    var input := scheme + ":" + rest;
    assert scheme + ":" <= input;
    assert "about" + ":" == "about:" && "data" + ":" == "data:" && "javascript" + ":" == "javascript:";
    assert input[|scheme| + 1..] == rest;
    if scheme != "about" { assert input[0] == scheme[0] != "about:"[0]; }
    if scheme == "javascript" { assert input[0] == scheme[0] != "data:"[0]; }
  }

  /** A text is read as a scheme, in any case, before its first `://`; without one the scheme is `https`. */
  ghost predicate SchemeRead(input: string, scheme: string, rest: string) {
    if exists k: nat :: OccursAt(input, k, "://") then
      exists s :: input == s + "://" + rest && scheme == Lower(s) && NotBefore(input, |s|)
    else
      scheme == "https" && input == (if "//" <= input then "//" else "") + rest
  }

  ghost predicate NotBefore(input: string, n: nat) {
    forall k: nat :: k < n ==> !OccursAt(input, k, "://")
  }

  lemma CutSchemeReads(input: string)
    ensures var (scheme, rest) := CutScheme(input); SchemeRead(input, scheme, rest)
  {
    var p := Find(input, 0, "://");
    var (scheme, rest) := CutScheme(input);
    if p.Some? {
      var s := input[..p.value];
      assert input[p.value..p.value + 3] == "://";
      assert input == s + "://" + rest && NotBefore(input, |s|);
    }
  }

  /** The path as written: nothing stands for a single slash. */
  ghost predicate PathRead(written: string, path: string) {
    (written != "" && written == path) || (written == "" && path == "/")
  }

  /** The port as written: nothing, or a colon and a number; anything else after the colon is no port. */
  ghost predicate PortRead(written: string, port: Option<U16>) {
    && NoneOf(written, "#?/")
    && ((written == "" && port.None?) || (written != "" && written[0] == ':' && port == ParseU16(written[1..])))
  }

  ghost predicate Reads(text: string, rest: string, host: string, portText: string, pathText: string, u: Url) {
    && SchemeRead(Trim(text), u.scheme, rest)
    && rest == host + portText + pathText + QueryText(u) + FragmentText(u)
    && u.host == Lower(host) && NoneOf(host, "#?/:")
    && PortRead(portText, u.port) && PathRead(pathText, u.path) && u.original == text
  }

  /**
  Any other text is its scheme, host, port, path, query and fragment, one after
  the other, and is refused exactly when the host is empty and the scheme is
  not special; `ParseShape` says which separators each of them is free of.
  */
  lemma ParseReads(text: string) returns (host: string, u: Url)
    requires SpecialPrefix(Trim(text)).None?
    ensures exists rest, portText, pathText :: Reads(text, rest, host, portText, pathText, u)
    ensures ParseUrl(text) == if host == "" && !SpecialScheme(u.scheme) then InvalidUrl(text) else Ok(u)
  {
    hide Trim, Lower, Find, CutAt, CutPath, CutScheme, ParseU16, SpecialPrefix, NoneOf, SchemeRead;
    var input := Trim(text);
    CutSchemeReads(input);
    var (scheme, rest0) := CutScheme(input);
    var (rest1, fragment) := CutAt(rest0, '#');
    CutParts(rest0, '#');
    var (rest2, query) := CutAt(rest1, '?');
    CutParts(rest1, '?');
    var (hostPort, path) := CutPath(rest2);
    CutPathShape(rest2);
    var (h, portText) := CutAt(hostPort, ':');
    CutParts(hostPort, ':');
    host := h;
    var port := if portText.Some? then ParseU16(portText.value) else None;
    u := Url(scheme, Lower(host), port, path, query, fragment, text);
    var written := if portText.Some? then ":" + portText.value else "";
    var pathText := if rest2 == hostPort then "" else path;
    PlainPieces(rest1, rest2, query, hostPort, path, host, portText);
    PortPieces(rest1, rest2, query, hostPort, path, host, portText);
    assert portText.Some? ==> written[1..] == portText.value;
    WrittenPath(rest2, hostPort, path);
    assert hostPort == host + written;
    Rejoined(rest0, rest1, rest2, hostPort, host, written, pathText, u);
    hide PathRead, PortRead, QueryText, FragmentText;
    assert Reads(text, rest0, host, written, pathText, u);
  }

  lemma Rejoined(rest0: string, rest1: string, rest2: string, hostPort: string, host: string, written: string,
                 pathText: string, u: Url)
    requires rest0 == if u.fragment.Some? then rest1 + "#" + u.fragment.value else rest1
    requires rest1 == if u.query.Some? then rest2 + "?" + u.query.value else rest2
    requires rest2 == hostPort + pathText && hostPort == host + written
    ensures rest0 == host + written + pathText + QueryText(u) + FragmentText(u)
  {
    assert rest1 == rest2 + QueryText(u);
    assert rest0 == rest1 + FragmentText(u);
  }

  lemma PortPieces(rest1: string, rest2: string, query: Option<string>, hostPort: string, path: string,
                   host: string, portText: Option<string>)
    requires '#' !in rest1 && '?' !in rest2 && rest1 == (if query.Some? then rest2 + "?" + query.value else rest2)
    requires '/' !in hostPort && (rest2 == hostPort + path || (rest2 == hostPort && path == "/"))
    requires hostPort == (if portText.Some? then host + ":" + portText.value else host)
    ensures NoneOf(if portText.Some? then ":" + portText.value else "", "#?/")
  {
    if query.Some? {
      assert rest1 == rest2 + ("?" + query.value);
      SubPlain(rest2, "?" + query.value, rest1, '#');
    }
    if rest2 == hostPort + path {
      SubPlain(hostPort, path, rest2, '#');
      SubPlain(hostPort, path, rest2, '?');
    }
    if portText.Some? {
      var tail := ":" + portText.value;
      assert hostPort == host + tail;
      SubPlain(host, tail, hostPort, '#');
      SubPlain(host, tail, hostPort, '?');
      SubPlain(host, tail, hostPort, '/');
    }
  }

  lemma WrittenPath(rest: string, hostPort: string, path: string)
    requires path != "" && (rest == hostPort + path || (rest == hostPort && path == "/"))
    ensures PathRead(if rest == hostPort then "" else path, path)
    ensures rest == hostPort + if rest == hostPort then "" else path
  {
    assert |hostPort + path| > |hostPort|;
  }

  // ----- resolving a reference against a base -----

  function LastSlash(s: string): Option<nat> {
    if s == "" then None
    else if s[|s| - 1] == '/' then Some(|s| - 1)
    else LastSlash(s[..|s| - 1])
  }

  function Directory(path: string): string {
    var p := LastSlash(path);
    if p.Some? && p.value < |path| then path[..p.value + 1] else "/"
  }

  function ParsedOr(text: string, fallback: string): Url {
    var r := ParseUrl(text);
    if r.Ok? then r.url else NewUrl(fallback)
  }

  function ResolveUrl(base: Url, relative: string): Url {
    if Find(relative, 0, "://").Some? then ParsedOr(relative, relative)
    else if "//" <= relative then ParsedOr(base.scheme + ":" + relative, relative)
    else if "/" <= relative then base.(path := relative, query := None, fragment := None)
    else if "?" <= relative then base.(query := Some(relative[1..]), fragment := None)
    else if "#" <= relative then base.(fragment := Some(relative[1..]))
    else base.(path := Directory(base.path) + relative, query := None, fragment := None)
  }

  /** A reference resolved inside the base's origin: not absolute and not protocol-relative. */
  predicate Local(relative: string) {
    Find(relative, 0, "://").None? && !("//" <= relative)
  }

  lemma {:induction false} LastSlashIs(s: string)
    ensures LastSlash(s).None? <==> '/' !in s
    ensures LastSlash(s).Some? ==> LastSlash(s).value < |s| && s[LastSlash(s).value] == '/'
    ensures LastSlash(s).Some? ==> '/' !in s[LastSlash(s).value + 1..]
  {
    if s != "" && s[|s| - 1] != '/' {
      var init := s[..|s| - 1];
      LastSlashIs(init);
      assert s == init + [s[|s| - 1]];
      if LastSlash(init).Some? {
        assert s[LastSlash(init).value + 1..] == init[LastSlash(init).value + 1..] + [s[|s| - 1]];
      }
    }
  }

  /** The base path up to and including its last slash, or a slash when there is none. */
  ghost predicate IsDirectory(dir: string, path: string) {
    if '/' in path then dir <= path && dir != "" && dir[|dir| - 1] == '/' && '/' !in path[|dir|..] else dir == "/"
  }

  lemma DirectoryIs(path: string)
    ensures IsDirectory(Directory(path), path)
  {
    LastSlashIs(path);
  }

  /** A local reference changes path, query and fragment at most, and keeps an absolute path. */
  lemma ResolveLocal(base: Url, relative: string)
    requires Local(relative)
    ensures var r := ResolveUrl(base, relative);
      && r.(path := base.path, query := base.query, fragment := base.fragment) == base
      && ("/" <= base.path ==> "/" <= r.path)
  {
    hide Find;
    LastSlashIs(base.path);
  }

  /**
  The printed result of resolving a local reference, as section 5.3 of RFC 3986
  recomposes it: the reference follows the base's origin, path or query, or the
  directory of its path.
  */
  lemma ResolvedHref(base: Url, relative: string)
    requires Local(relative)
    ensures var href := Href(ResolveUrl(base, relative));
      && ("/" <= relative ==> href == Origin(base) + relative)
      && ("?" <= relative ==> href == Origin(base) + base.path + relative)
      && ("#" <= relative ==> href == Href(base.(fragment := None)) + relative)
      && (relative == "" || relative[0] !in "/?#" ==>
            exists dir :: IsDirectory(dir, base.path) && href == Origin(base) + dir + relative)
  {
    hide Find, Decimal, Directory, IsDirectory;
    var r := ResolveUrl(base, relative);
    assert Origin(r) == Origin(base);
    hide Origin;
    assert ("/" <= relative ==> relative[0] == '/') && ("?" <= relative ==> relative[0] == '?')
        && ("#" <= relative ==> relative[0] == '#');
    if "/" <= relative {
      Unpadded(Origin(base) + relative);
    } else if "?" <= relative {
      assert "?" + relative[1..] == relative;
      Unpadded(Origin(base) + base.path + relative);
    } else if "#" <= relative {
      assert "#" + relative[1..] == relative;
      assert Origin(base.(fragment := None)) == Origin(base) by { OriginIs(base); }
      Unpadded(Origin(base) + base.path + QueryText(base));
    } else {
      DirectoryIs(base.path);
      var dir := Directory(base.path);
      assert Origin(base) + (dir + relative) == Origin(base) + dir + relative;
      Unpadded(Origin(base) + dir + relative);
    }
  }

  lemma OriginIs(u: Url)
    ensures Origin(u.(fragment := None)) == Origin(u)
  {
  }

  lemma Unpadded(a: string)
    ensures a + "" == a
  {
  }

  /** A printed URL resolves to itself against any base, and without its scheme against a base that shares it. */
  lemma ResolvePrinted(base: Url, u: Url)
    requires WellFormed(u)
    ensures ResolveUrl(base, Href(u)) == u.(original := Href(u))
    ensures var rest := "//" + (u.host + PortText(u) + u.path + QueryText(u) + FragmentText(u));
      u.scheme == base.scheme && Find(rest, 0, "://").None? ==> ResolveUrl(base, rest) == u.(original := Href(u))
  {
    hide ParseUrl, WellFormed, Decimal;
    PrintThenParse(u);
    HrefSplit(u);
    var tail := u.host + PortText(u) + u.path + QueryText(u) + FragmentText(u);
    hide Href, Find;
    SeparatorAt(u.scheme, tail);
    SplitSeparator(u.scheme, tail);
  }

  lemma SeparatorAt(a: string, b: string)
    ensures Find(a + "://" + b, 0, "://").Some?
  {
    assert (a + "://" + b)[|a|..|a| + 3] == "://";
    assert OccursAt(a + "://" + b, |a|, "://");
  }

  lemma SplitSeparator(a: string, b: string)
    ensures a + ":" + ("//" + b) == a + "://" + b
  {
    assert ":" + "//" == "://";
    assert a + ":" + ("//" + b) == a + (":" + "//") + b;
  }

  /** An absolute or protocol-relative reference that cannot be parsed becomes an empty URL that keeps the reference. */
  lemma ResolveInvalid(base: Url, relative: string)
    requires !Local(relative)
    requires ParseUrl(if Find(relative, 0, "://").Some? then relative else base.scheme + ":" + relative).InvalidUrl?
    ensures ResolveUrl(base, relative) == Url("", "", None, "/", None, None, relative)
  {
    hide ParseUrl;
  }

  /** A reference the code can put into a URL as it stands: no separator it does not split at, no trailing space. */
  predicate CleanReference(relative: string) {
    && (relative == "" || !IsSpace(relative[|relative| - 1]))
    && ("#" <= relative || NoneOf(relative, if "?" <= relative then "#" else "#?"))
  }

  lemma SpecialByScheme(scheme: string, a: string, b: string)
    ensures SpecialPrefix(scheme + "://" + a).None? <==> SpecialPrefix(scheme + "://" + b).None?
  {
    assert "about" + ":" == "about:" && "data" + ":" == "data:" && "javascript" + ":" == "javascript:";
    PrefixByScheme("about", scheme, a, b);
    PrefixByScheme("data", scheme, a, b);
    PrefixByScheme("javascript", scheme, a, b);
  }

  lemma PrefixByScheme(sp: string, scheme: string, a: string, b: string)
    requires ':' !in sp
    ensures sp + ":" <= scheme + "://" + a <==> sp + ":" <= scheme + "://" + b
  {
    var p, s, t := sp + ":", scheme + "://" + a, scheme + "://" + b;
    assert s[|scheme|] == ':' && t[|scheme|] == ':';
    assert |scheme| < |sp| ==> p[|scheme|] == sp[|scheme|] && sp[|scheme|] in sp;
    assert forall i :: 0 <= i <= |scheme| ==> s[i] == t[i];
    if |scheme| >= |sp| {
      assert p <= s <==> forall i :: 0 <= i < |p| ==> p[i] == s[i];
      assert p <= t <==> forall i :: 0 <= i < |p| ==> p[i] == t[i];
    }
  }

  lemma HrefSplit(u: Url)
    ensures Href(u) == u.scheme + "://" + (u.host + PortText(u) + u.path + QueryText(u) + FragmentText(u))
  {
    hide Decimal;
  }

  lemma NoneOfConcat(a: string, b: string, cs: string)
    ensures NoneOf(a + b, cs) <==> NoneOf(a, cs) && NoneOf(b, cs)
  {
    var s := a + b;
    forall i | 0 <= i < |a| ensures s[i] == a[i] { }
    forall i | 0 <= i < |b| ensures s[|a| + i] == b[i] { }
  }

  lemma DirectoryIsClean(path: string)
    requires "/" <= path && NoneOf(path, "#?")
    ensures "/" <= Directory(path) && NoneOf(Directory(path), "#?") && Directory(path)[|Directory(path)| - 1] == '/'
  {
    LastSlashIs(path);
  }

  /** What remains to check once scheme, host and port are those of a well-formed URL. */
  predicate CleanTail(u: Url) {
    && u.path != "" && u.path[0] == '/' && NoneOf(u.path, "#?")
    && (u.query.Some? ==> NoneOf(u.query.value, "#"))
    && !IsSpace(Last(u))
  }

  lemma SameOriginIff(base: Url, r: Url)
    requires WellFormed(base) && r.scheme == base.scheme && r.host == base.host && r.port == base.port
    ensures WellFormed(r) <==> CleanTail(r)
  {
    hide Find, Decimal, SpecialPrefix, IsLower, NoneOf;
    HrefSplit(base);
    HrefSplit(r);
    SpecialByScheme(base.scheme, base.host + PortText(base) + base.path + QueryText(base) + FragmentText(base),
                    r.host + PortText(r) + r.path + QueryText(r) + FragmentText(r));
    HrefEnds(base);
    if r.path != "" { HrefEnds(r); }
  }

  lemma BaseIsClean(base: Url)
    requires WellFormed(base)
    ensures CleanTail(base)
  {
    SameOriginIff(base, base);
  }

  /** Resolving a local reference gives a well-formed URL exactly for the clean references. */
  lemma ResolvedWellFormedIff(base: Url, relative: string)
    requires WellFormed(base) && Local(relative)
    ensures WellFormed(ResolveUrl(base, relative)) <==> CleanReference(relative)
  {
    hide Find, WellFormed, Directory, Trimmed;
    var r := ResolveUrl(base, relative);
    SameOriginIff(base, r);
    BaseIsClean(base);
    DirectoryIsClean(base.path);
    NoneOfConcat(Directory(base.path), relative, "#?");
    if "?" <= relative {
      assert relative == "?" + relative[1..];
      NoneOfConcat("?", relative[1..], "#");
      assert NoneOf("?", "#") by { assert "?"[0] != "#"[0]; }
    }
  }
}
