/**
Sub-parsers of `kpio-css`: attribute selectors and at-rules.  Each function
reads the text that is left; the class below does the same with a cursor.
*/
module CssParser {
  import opened Wrappers
  import opened Strings

  datatype ParseError = UnexpectedEof | UnexpectedToken(message: string) | UnclosedString

  /** A parse result with the text left unread, also after an error. */
  datatype Parse<+T> = Ok(value: T, rest: string) | Err(error: ParseError, rest: string) {
    predicate IsFailure() { Err? }

    function PropagateFailure<U>(): Parse<U>
      requires Err?
    {
      Err(error, rest)
    }

    function Extract(): (T, string)
      requires Ok?
    {
      (value, rest)
    }
  }

  datatype Operator = Exists | Equals | Includes | DashMatch | Prefix | Suffix | Substring

  datatype AttributeSelector = AttributeSelector(
    name: string, operator: Operator, value: Option<string>, ignoreCase: bool)

  datatype AtRule = AtRule(name: string, prelude: string, block: Option<string>)

  // ----- characters and tokens -----

  predicate IsIdentChar(c: char) {
    'a' <= c <= 'z' || 'A' <= c <= 'Z' || '0' <= c <= '9' || c == '_' || c == '-'
  }

  /** Identifiers are made of ASCII letters and digits, underscores and hyphens. */
  lemma IdentCharIff(c: char)
    ensures IsIdentChar(c) <==> c in LOWER_CASE || c in UPPER_CASE || c in DECIMAL || c == '_' || c == '-'
  {
    InLowerCase(c);
    InUpperCase(c);
    InDecimal(c);
  }

  /** Consumes one character, the expected one or not. */
  function Expect(s: string, c: char): Parse<()> {
    if s == "" then Err(UnexpectedToken("expected '" + [c] + "'"), "")
    else if s[0] == c then Ok((), s[1..])
    else Err(UnexpectedToken("expected '" + [c] + "'"), s[1..])
  }

  function IdentPrefix(s: string): (t: string)
    ensures t <= s
  {
    if s != "" && IsIdentChar(s[0]) then [s[0]] + IdentPrefix(s[1..]) else ""
  }

  function Ident(s: string): Parse<string> {
    var name := IdentPrefix(s);
    if name == "" then Err(UnexpectedToken("expected identifier"), s) else Ok(name, s[|name|..])
  }

  /** The rest of a string after its opening quote; a backslash takes the next character as it is. */
  function StringTail(s: string, quote: char): Parse<string> {
    if s == "" then Err(UnclosedString, "")
    else if s[0] == quote then Ok("", s[1..])
    else if s[0] == '\\' && |s| == 1 then Err(UnclosedString, "")
    else
      var (c, after) := if s[0] == '\\' then (s[1], s[2..]) else (s[0], s[1..]);
      var (text, rest) :- StringTail(after, quote);
      Ok([c] + text, rest)
  }

  function StringOrIdent(s: string): Parse<string> {
    if s != "" && (s[0] == '"' || s[0] == '\'') then StringTail(s[1..], s[0]) else Ident(s)
  }

  function OperatorOf(c: char): Option<Operator> {
    match c
    case '~' => Some(Includes)
    case '|' => Some(DashMatch)
    case '^' => Some(Prefix)
    case '$' => Some(Suffix)
    case '*' => Some(Substring)
    case _ => None
  }

  function ReadOperator(s: string): Parse<Operator> {
    if s == "" then Err(UnexpectedToken("expected attribute operator"), s)
    else if s[0] == '=' then Ok(Equals, s[1..])
    else if OperatorOf(s[0]).Some? then
      var ((), rest) :- Expect(s[1..], '=');
      Ok(OperatorOf(s[0]).value, rest)
    else Err(UnexpectedToken("expected attribute operator"), s)
  }

  predicate StartsWith(s: string, c: char) {
    s != "" && s[0] == c
  }

  /** The operator and value, or nothing before a closing bracket. */
  function Matcher(s: string): Parse<(Operator, Option<string>)> {
    if StartsWith(s, ']') then Ok((Exists, None), s)
    else
      var (op, s1) :- ReadOperator(s);
      var (v, s2) :- StringOrIdent(TrimStart(s1));
      Ok((op, Some(v)), s2)
  }

  /** The optional case flag and the closing bracket. */
  function Closing(name: string, m: (Operator, Option<string>), s3: string): Parse<AttributeSelector> {
    var s4 := TrimStart(s3);
    var ignoreCase := StartsWith(s4, 'i') || StartsWith(s4, 'I');
    var s5 := TrimStart(if ignoreCase then s4[1..] else s4);
    var ((), rest) :- Expect(s5, ']');
    Ok(AttributeSelector(name, m.0, m.1, ignoreCase), rest)
  }

  function Attribute(s: string): Parse<AttributeSelector> {
    var ((), s1) :- Expect(s, '[');
    var (name, s2) :- Ident(TrimStart(s1));
    var (m, s3) :- Matcher(TrimStart(s2));
    Closing(name, m, s3)
  }

  /** The text before the next `{` or `;`. */
  function PreludePrefix(s: string): (t: string)
    ensures t <= s
  {
    if s == "" || s[0] == '{' || s[0] == ';' then "" else [s[0]] + PreludePrefix(s[1..])
  }

  /** The text up to the `}` that closes `depth` open braces, or all of it. */
  function BlockPrefix(s: string, depth: nat): (t: string)
    requires depth > 0
    ensures t <= s
  {
    if s == "" then ""
    else if s[0] == '{' then "{" + BlockPrefix(s[1..], depth + 1)
    else if s[0] == '}' then (if depth == 1 then "" else "}" + BlockPrefix(s[1..], depth - 1))
    else [s[0]] + BlockPrefix(s[1..], depth)
  }

  function Tail(s: string): string {
    if s == "" then "" else s[1..]
  }

  /** The prelude, then a block, a semicolon or the end of the text. */
  function RuleTail(name: string, s3: string): Parse<AtRule> {
    var prelude := PreludePrefix(s3);
    var s4 := s3[|prelude|..];
    if StartsWith(s4, '{') then
      var content := BlockPrefix(s4[1..], 1);
      Ok(AtRule(name, Trim(prelude), Some(content)), Tail(s4[1..][|content|..]))
    else
      Ok(AtRule(name, Trim(prelude), None), if StartsWith(s4, ';') then s4[1..] else s4)
  }

  function ReadAtRule(s: string): Parse<AtRule> {
    var ((), s1) :- Expect(s, '@');
    var (name, s2) :- Ident(s1);
    RuleTail(name, TrimStart(s2))
  }

  // ----- printing -----

  function OperatorText(op: Operator): string {
    match op
    case Exists => ""
    case Equals => "="
    case Includes => "~="
    case DashMatch => "|="
    case Prefix => "^="
    case Suffix => "$="
    case Substring => "*="
  }

  function Escape(s: string, quote: char): string {
    if s == "" then ""
    else (if s[0] == quote || s[0] == '\\' then ['\\', s[0]] else [s[0]]) + Escape(s[1..], quote)
  }

  predicate IsIdent(s: string) {
    s != "" && forall i :: 0 <= i < |s| ==> IsIdentChar(s[i])
  }

  /** A selector the parser can produce: no value and no flag without an operator. */
  predicate Printable(a: AttributeSelector) {
    IsIdent(a.name) && (if a.operator.Exists? then a.value.None? && !a.ignoreCase else a.value.Some?)
  }

  /** White space allowed at each joint of the printed selector. */
  datatype Spacing = Spacing(open: string, name: string, operator: string, value: string, flag: string)

  predicate Blank(w: Spacing) {
    AllSpace(w.open) && AllSpace(w.name) && AllSpace(w.operator) && AllSpace(w.value) && AllSpace(w.flag)
  }

  function ValueText(a: AttributeSelector, quote: char): string {
    if a.value.Some? then [quote] + Escape(a.value.value, quote) + [quote] else ""
  }

  function FlagText(a: AttributeSelector): string {
    if a.ignoreCase then "i" else ""
  }

  /** A selector written with the value as `v`, the flag as `f`, and blanks between. */
  function FormText(a: AttributeSelector, w: Spacing, v: string, f: string): string {
    "[" + (w.open + (a.name + (w.name + (OperatorText(a.operator) + (w.operator
      + (v + (w.value + (f + (w.flag + "]")))))))))
  }

  function PrintAttribute(a: AttributeSelector, quote: char, w: Spacing): string {
    FormText(a, w, ValueText(a, quote), FlagText(a))
  }

  /** `t` is the text with each character as it is, or behind a backslash. */
  ghost predicate StringForm(t: string, quote: char, text: string)
    decreases |text|
  {
    if text == "" then t == ""
    else if |t| >= 2 && t[0] == '\\' then t[1] == text[0] && StringForm(t[2..], quote, text[1..])
    else t != "" && t[0] != quote && t[0] != '\\' && t[0] == text[0] && StringForm(t[1..], quote, text[1..])
  }

  ghost predicate Quoted(v: string, quote: char, t: string, text: string) {
    v == [quote] + t + [quote] && StringForm(t, quote, text)
  }

  /** A value is written as an identifier, or between either kind of quotes. */
  ghost predicate ValueForm(v: string, text: string) {
    (v == text && IsIdent(text)) || (exists t :: Quoted(v, '"', t, text) || Quoted(v, '\'', t, text))
  }

  /** The ways to write a selector; a flag after a bare value needs a blank before it. */
  ghost predicate Form(a: AttributeSelector, w: Spacing, v: string, f: string) {
    && IsIdent(a.name) && Blank(w)
    && if a.operator.Exists? then a.value.None? && !a.ignoreCase && v == "" && f == ""
       else
         && a.value.Some? && ValueForm(v, a.value.value)
         && (if a.ignoreCase then f == "i" || f == "I" else f == "")
         && (IsIdent(v) && f != "" ==> w.value != "")
  }

  // ----- round trips of the pieces -----

  lemma {:induction false} SkipBlank(w: string, s: string)
    requires AllSpace(w) && (s == "" || !IsSpace(s[0]))
    ensures TrimStart(w + s) == s
  {
    if w == "" {
      assert w + s == s;
    } else {
      assert (w + s)[1..] == w[1..] + s;
      SkipBlank(w[1..], s);
    }
  }

  lemma {:induction false} IdentPrefixJoined(name: string, s: string)
    requires (forall i :: 0 <= i < |name| ==> IsIdentChar(name[i])) && (s == "" || !IsIdentChar(s[0]))
    ensures IdentPrefix(name + s) == name
  {
    if name == "" {
      assert name + s == s;
    } else {
      assert (name + s)[1..] == name[1..] + s;
      IdentPrefixJoined(name[1..], s);
    }
  }

  lemma IdentJoined(name: string, s: string)
    requires IsIdent(name) && (s == "" || !IsIdentChar(s[0]))
    ensures Ident(name + s) == Ok(name, s)
  {
    IdentPrefixJoined(name, s);
    assert (name + s)[|name|..] == s;
  }

  /** A string read from any of its written forms stops just past its closing quote. */
  lemma {:induction false} StringFormRead(t: string, quote: char, text: string, rest: string)
    requires quote != '\\' && StringForm(t, quote, text)
    ensures StringTail(t + [quote] + rest, quote) == Ok(text, rest)
    decreases |text|
  {
    var s := t + [quote] + rest;
    if text == "" {
      assert s[1..] == rest;
    } else {
      if t[0] == '\\' {
        assert s[2..] == t[2..] + [quote] + rest && s[0] == t[0] && s[1] == t[1];
        StringFormRead(t[2..], quote, text[1..], rest);
      } else {
        assert s[1..] == t[1..] + [quote] + rest && s[0] == t[0];
        StringFormRead(t[1..], quote, text[1..], rest);
      }
      assert [text[0]] + text[1..] == text;
    }
  }

  /** And whatever is read as a string was one of its written forms. */
  lemma {:induction false} StringReadForm(s: string, quote: char) returns (t: string)
    requires StringTail(s, quote).Ok? && quote != '\\'
    ensures var r := StringTail(s, quote); s == t + [quote] + r.rest && StringForm(t, quote, r.value)
  {
    if s[0] == quote {
      t := "";
    } else if s[0] == '\\' {
      var u := StringReadForm(s[2..], quote);
      t := [s[0], s[1]] + u;
      assert t[2..] == u && StringTail(s, quote).value[1..] == StringTail(s[2..], quote).value;
    } else {
      var u := StringReadForm(s[1..], quote);
      t := [s[0]] + u;
      assert t[1..] == u && StringTail(s, quote).value[1..] == StringTail(s[1..], quote).value;
    }
  }

  lemma {:induction false} EscapeIsForm(text: string, quote: char)
    requires quote != '\\'
    ensures StringForm(Escape(text, quote), quote, text)
  {
    if text != "" {
      var t := Escape(text, quote);
      EscapeIsForm(text[1..], quote);
      if text[0] == quote || text[0] == '\\' {
        assert t[2..] == Escape(text[1..], quote);
      } else {
        assert t[1..] == Escape(text[1..], quote);
      }
    }
  }

  /** Reading an escaped string back gives the string, and stops just past its closing quote. */
  lemma StringRoundTrip(text: string, quote: char, rest: string)
    requires quote != '\\'
    ensures StringTail(Escape(text, quote) + [quote] + rest, quote) == Ok(text, rest)
  {
    EscapeIsForm(text, quote);
    StringFormRead(Escape(text, quote), quote, text, rest);
  }

  lemma QuotedIsOne(v: string, quote: char, t: string, text: string, rest: string)
    requires Quoted(v, quote, t, text) && (quote == '"' || quote == '\'')
    ensures StringOrIdent(v + rest) == Ok(text, rest) && v != "" && !IsIdentChar(v[0])
  {
    assert (v + rest)[0] == quote && (v + rest)[1..] == t + [quote] + rest;
    StringFormRead(t, quote, text, rest);
  }

  /** A value read from any of its written forms; a bare one ends where identifiers do. */
  lemma ValueRead(v: string, text: string, rest: string)
    requires ValueForm(v, text) && (IsIdent(v) ==> rest == "" || !IsIdentChar(rest[0]))
    ensures StringOrIdent(v + rest) == Ok(text, rest) && v != "" && !IsSpace(v[0])
  {
    if v == text && IsIdent(text) {
      IdentJoined(v, rest);
      assert (v + rest)[0] == v[0];
    } else {
      var t :| Quoted(v, '"', t, text) || Quoted(v, '\'', t, text);
      if Quoted(v, '"', t, text) { QuotedIsOne(v, '"', t, text, rest); } else { QuotedIsOne(v, '\'', t, text, rest); }
    }
  }

  lemma ReadValue(s: string) returns (v: string)
    requires StringOrIdent(s).Ok?
    ensures var r := StringOrIdent(s);
      s == v + r.rest && ValueForm(v, r.value) && (IsIdent(v) ==> r.rest == "" || !IsIdentChar(r.rest[0]))
  {
    if s != "" && (s[0] == '"' || s[0] == '\'') {
      v := ReadQuoted(s, s[0]);
    } else {
      v := IdentPrefix(s);
      IdentPrefixIs(s);
      IdentEnds(s);
    }
  }

  lemma ReadQuoted(s: string, quote: char) returns (v: string)
    requires s != "" && s[0] == quote && (quote == '"' || quote == '\'') && StringTail(s[1..], quote).Ok?
    ensures var r := StringTail(s[1..], quote); s == v + r.rest && ValueForm(v, r.value) && !IsIdent(v)
  {
    var t := StringReadForm(s[1..], quote);
    hide StringTail, StringForm;
    var r := StringTail(s[1..], quote);
    v := [quote] + t + [quote];
    assert Quoted(v, quote, t, r.value) && v[0] == quote;
    assert s == [quote] + s[1..];
  }

  lemma {:induction false} IdentEnds(s: string)
    ensures var n := |IdentPrefix(s)|; s[n..] == "" || !IsIdentChar(s[n])
  {
    if s != "" && IsIdentChar(s[0]) {
      IdentEnds(s[1..]);
      assert s[|IdentPrefix(s)|..] == s[1..][|IdentPrefix(s[1..])|..];
    }
  }

  lemma OperatorRoundTrip(op: Operator, rest: string)
    requires !op.Exists?
    ensures ReadOperator(OperatorText(op) + rest) == Ok(op, rest)
  {
    var s := OperatorText(op) + rest;
    if op.Equals? {
      assert s[1..] == rest;
    } else {
      assert s[1..] == "=" + rest && ("=" + rest)[1..] == rest;
    }
  }

  /** The end of the selector: optional flag, closing bracket. */
  lemma ClosingRead(a: AttributeSelector, w: Spacing, f: string, rest: string)
    requires Blank(w) && (if a.ignoreCase then f == "i" || f == "I" else f == "")
    ensures Closing(a.name, (a.operator, a.value), w.value + (f + (w.flag + ("]" + rest)))) == Ok(a, rest)
  {
    hide TrimStart;
    var t9 := "]" + rest;
    assert t9[0] == ']' && t9[1..] == rest;
    SkipBlank(w.flag, t9);
    if a.ignoreCase {
      SkipBlank(w.value, f + (w.flag + t9));
      assert (f + (w.flag + t9))[0] == f[0] && (f + (w.flag + t9))[1..] == w.flag + t9;
    } else {
      assert w.value + ("" + (w.flag + t9)) == (w.value + w.flag) + t9;
      SkipBlank(w.value + w.flag, t9);
      SkipBlank("", t9);
      assert "" + t9 == t9;
    }
  }

  lemma MatcherRead(a: AttributeSelector, w: Spacing, v: string, f: string, t6: string)
    requires Form(a, w, v, f) && !a.operator.Exists? && (IsIdent(v) ==> t6 == "" || !IsIdentChar(t6[0]))
    ensures Matcher(TrimStart(w.name + (OperatorText(a.operator) + (w.operator + (v + t6)))))
         == Ok((a.operator, a.value), t6)
  {
    ValueRead(v, a.value.value, t6);
    hide TrimStart, ReadOperator, StringOrIdent, ValueForm, IsIdent;
    var t5 := v + t6;
    var t4 := w.operator + t5;
    var t3 := OperatorText(a.operator) + t4;
    assert t5[0] == v[0];
    SkipBlank(w.name, t3);
    OperatorRoundTrip(a.operator, t4);
    SkipBlank(w.operator, t5);
  }

  /** After a bare value comes a blank or the closing bracket. */
  lemma BareValueEnds(a: AttributeSelector, w: Spacing, v: string, f: string, rest: string)
    requires Form(a, w, v, f) && !a.operator.Exists?
    ensures var t6 := w.value + (f + (w.flag + ("]" + rest))); IsIdent(v) ==> t6 != "" && !IsIdentChar(t6[0])
  {
    var t6 := w.value + (f + (w.flag + ("]" + rest)));
    if IsIdent(v) {
      if w.value != "" {
        assert t6[0] == w.value[0];
      } else if w.flag != "" {
        assert t6[0] == w.flag[0];
      } else {
        assert t6 == "]" + rest;
      }
    }
  }

  lemma NotIdentAfterName(a: AttributeSelector, w: Spacing, t4: string, t: string)
    requires Blank(w) && t == w.name + (if a.operator.Exists? then t4 else OperatorText(a.operator) + t4)
    requires a.operator.Exists? ==> t4 != "" && !IsIdentChar(t4[0])
    ensures t != "" && !IsIdentChar(t[0])
  {
    if w.name != "" { assert t[0] == w.name[0]; }
  }

  /** The written selector after its opening bracket and blanks. */
  function AfterOpen(a: AttributeSelector, w: Spacing, v: string, f: string, rest: string): string {
    a.name + (w.name + (OperatorText(a.operator) + (w.operator + (v + (w.value + (f + (w.flag + ("]" + rest))))))))
  }

  lemma WrittenForm(a: AttributeSelector, w: Spacing, v: string, f: string, rest: string)
    ensures FormText(a, w, v, f) + rest == "[" + (w.open + AfterOpen(a, w, v, f, rest))
  {
    hide OperatorText;
    var t := w.flag + "]";
    assert t + rest == w.flag + ("]" + rest);
    Join3(f, t, rest);
    Join3(w.value, f + t, rest);
    Join3(v, w.value + (f + t), rest);
    var u := v + (w.value + (f + t));
    Join3(w.operator, u, rest);
    Join3(OperatorText(a.operator), w.operator + u, rest);
    Join3(w.name, OperatorText(a.operator) + (w.operator + u), rest);
    Join3(a.name, w.name + (OperatorText(a.operator) + (w.operator + u)), rest);
    Join3(w.open, a.name + (w.name + (OperatorText(a.operator) + (w.operator + u))), rest);
    Join3("[", w.open + (a.name + (w.name + (OperatorText(a.operator) + (w.operator + u)))), rest);
  }

  lemma Join3(x: string, y: string, z: string)
    ensures (x + y) + z == x + (y + z)
  {
  }

  lemma NameStage(a: AttributeSelector, w: Spacing, v: string, f: string, rest: string, t2: string)
    requires IsIdent(a.name) && Blank(w) && t2 != "" && !IsIdentChar(t2[0])
    requires AfterOpen(a, w, v, f, rest) == a.name + t2
    ensures var s := FormText(a, w, v, f) + rest;
      && Expect(s, '[') == Ok((), w.open + (a.name + t2))
      && Ident(TrimStart(w.open + (a.name + t2))) == Ok(a.name, t2)
  {
    hide AfterOpen, FormText, TrimStart, Ident;
    var s := FormText(a, w, v, f) + rest;
    WrittenForm(a, w, v, f, rest);
    assert s[1..] == w.open + (a.name + t2);
    assert (a.name + t2)[0] == a.name[0];
    SkipBlank(w.open, a.name + t2);
    IdentJoined(a.name, t2);
  }

  lemma PresenceRead(a: AttributeSelector, w: Spacing, rest: string)
    requires Form(a, w, "", "") && a.operator.Exists?
    ensures Attribute(FormText(a, w, "", "") + rest) == Ok(a, rest)
  {
    var t9 := "]" + rest;
    var t4 := w.operator + (w.value + (w.flag + t9));
    var t2 := w.name + t4;
    assert AfterOpen(a, w, "", "", rest) == a.name + t2 by { NothingBetween(a, w, rest); }
    hide Matcher, TrimStart, Ident, Closing, FormText, AfterOpen;
    BlankBeforeBracket(w, t9);
    NotIdentAfterName(a, w, t4, t2);
    NameStage(a, w, "", "", rest, t2);
    assert t2 == (w.name + w.operator + w.value + w.flag) + t9;
    ExistsMatcher(t9);
    ClosingRead(a, Spacing("", "", "", "", ""), "", rest);
    assert "" + ("" + ("" + t9)) == t9;
  }

  lemma NothingBetween(a: AttributeSelector, w: Spacing, rest: string)
    requires a.operator.Exists?
    ensures AfterOpen(a, w, "", "", rest) == a.name + (w.name + (w.operator + (w.value + (w.flag + ("]" + rest)))))
  {
    var t := w.flag + ("]" + rest);
    assert "" + t == t;
    assert "" + (w.value + t) == w.value + t;
    assert "" + (w.operator + (w.value + t)) == w.operator + (w.value + t);
  }

  lemma ValuedRead(a: AttributeSelector, w: Spacing, v: string, f: string, rest: string)
    requires Form(a, w, v, f) && !a.operator.Exists?
    ensures Attribute(FormText(a, w, v, f) + rest) == Ok(a, rest)
  {
    var t6 := w.value + (f + (w.flag + ("]" + rest)));
    var t4 := w.operator + (v + t6);
    var t2 := w.name + (OperatorText(a.operator) + t4);
    assert AfterOpen(a, w, v, f, rest) == a.name + t2;
    BareValueEnds(a, w, v, f, rest);
    hide Matcher, TrimStart, Ident, Closing, FormText, AfterOpen, ValueForm;
    NotIdentAfterName(a, w, t4, t2);
    NameStage(a, w, v, f, rest, t2);
    MatcherRead(a, w, v, f, t6);
    ClosingRead(a, w, f, rest);
  }

  /** A selector read from any of its written forms, with the cursor just past the bracket. */
  lemma FormRead(a: AttributeSelector, w: Spacing, v: string, f: string, rest: string)
    requires Form(a, w, v, f)
    ensures Attribute(FormText(a, w, v, f) + rest) == Ok(a, rest)
  {
    hide Attribute, FormText;
    if a.operator.Exists? { PresenceRead(a, w, rest); } else { ValuedRead(a, w, v, f, rest); }
  }

  /** Printing an attribute selector, with any spacing, and parsing it gives it back, the cursor past the bracket. */
  lemma AttributeRoundTrip(a: AttributeSelector, quote: char, w: Spacing, rest: string)
    requires Printable(a) && (quote == '"' || quote == '\'') && Blank(w)
    ensures Attribute(PrintAttribute(a, quote, w) + rest) == Ok(a, rest)
  {
    hide Attribute, FormText;
    var v := ValueText(a, quote);
    if a.value.Some? {
      EscapeIsForm(a.value.value, quote);
      assert Quoted(v, quote, Escape(a.value.value, quote), a.value.value);
      assert v[0] == quote;
    }
    FormRead(a, w, v, FlagText(a), rest);
  }

  lemma ExistsMatcher(s: string)
    requires StartsWith(s, ']')
    ensures Matcher(s) == Ok((Exists, None), s)
  {
  }

  lemma BlankBeforeBracket(w: Spacing, t9: string)
    requires Blank(w) && StartsWith(t9, ']')
    ensures TrimStart((w.name + w.operator + w.value + w.flag) + t9) == t9
    ensures var t4 := w.operator + (w.value + (w.flag + t9)); t4 != "" && !IsIdentChar(t4[0])
  {
    var b := w.name + w.operator + w.value + w.flag;
    forall i | 0 <= i < |b| ensures IsSpace(b[i]) { }
    SkipBlank(b, t9);
  }

  // ----- at-rules -----

  /** Brace depth after the text, or nothing once a brace closes that was not opened. */
  function Depth(s: string, depth: nat): Option<nat> {
    if s == "" then Some(depth)
    else if s[0] == '{' then Depth(s[1..], depth + 1)
    else if s[0] == '}' then (if depth == 0 then None else Depth(s[1..], depth - 1))
    else Depth(s[1..], depth)
  }

  predicate Balanced(s: string) {
    Depth(s, 0) == Some(0)
  }

  /** Reading a block stops exactly at the brace that closes it. */
  lemma {:induction false} BlockJoined(block: string, depth: nat, rest: string)
    requires Depth(block, depth) == Some(0)
    ensures BlockPrefix(block + "}" + rest, depth + 1) == block
  {
    var s := block + "}" + rest;
    if block == "" {
      assert s[0] == '}';
    } else {
      assert s[1..] == block[1..] + "}" + rest && s[0] == block[0] && block == [block[0]] + block[1..];
      if block[0] == '{' {
        BlockJoined(block[1..], depth + 1, rest);
      } else if block[0] == '}' {
        BlockJoined(block[1..], depth - 1, rest);
      } else {
        BlockJoined(block[1..], depth, rest);
      }
    }
  }

  /** Whatever the input, what is read as a closed block is balanced; an unclosed one takes everything. */
  lemma {:induction false} BlockPrefixIs(s: string, depth: nat)
    ensures var t := BlockPrefix(s, depth + 1);
      if t == s then Depth(s, depth).Some? else s[|t|] == '}' && Depth(t, depth) == Some(0)
  {
    if s != "" {
      var t := BlockPrefix(s, depth + 1);
      if s[0] == '{' {
        BlockPrefixIs(s[1..], depth + 1);
      } else if s[0] != '}' {
        BlockPrefixIs(s[1..], depth);
      } else if depth > 0 {
        BlockPrefixIs(s[1..], depth - 1);
      }
      if t != "" {
        assert t[1..]
            == BlockPrefix(s[1..], if s[0] == '{' then depth + 2 else if s[0] == '}' then depth else depth + 1);
      }
    }
  }

  lemma {:induction false} PreludeJoined(prelude: string, s: string)
    requires (forall i :: 0 <= i < |prelude| ==> prelude[i] != '{' && prelude[i] != ';')
    requires s == "" || s[0] == '{' || s[0] == ';'
    ensures PreludePrefix(prelude + s) == prelude
  {
    if prelude == "" {
      assert prelude + s == s;
    } else {
      assert (prelude + s)[1..] == prelude[1..] + s;
      PreludeJoined(prelude[1..], s);
    }
  }

  /** A rule the parser can produce. */
  predicate PrintableRule(r: AtRule) {
    && IsIdent(r.name)
    && (forall i :: 0 <= i < |r.prelude| ==> r.prelude[i] != '{' && r.prelude[i] != ';')
    && (r.prelude == "" || (!IsSpace(r.prelude[0]) && !IsSpace(r.prelude[|r.prelude| - 1])))
    && (r.block.Some? ==> Balanced(r.block.value))
  }

  /** One or more blanks after the name, any number after the prelude, then a block or a semicolon. */
  function PrintRule(r: AtRule, gap: string, after: string): string {
    "@" + (r.name + (gap + (r.prelude + (after +
      (if r.block.Some? then "{" + r.block.value + "}" else ";")))))
  }

  lemma {:induction false} TrimTrailing(s: string, w: string)
    requires Trimmed(s) && AllSpace(w)
    ensures Trim(s + w) == s
    decreases |w|
  {
    if s == "" {
      SkipBlank(w, "");
      assert s + w == w && w + "" == w;
    } else {
      TrimEndTrailing(s, w);
    }
  }

  lemma {:induction false} TrimEndTrailing(s: string, w: string)
    requires s != "" && !IsSpace(s[|s| - 1]) && AllSpace(w)
    ensures TrimEnd(s + w) == s
    decreases |w|
  {
    if w == "" {
      assert s + w == s;
    } else {
      assert (s + w)[..|s + w| - 1] == s + w[..|w| - 1];
      TrimEndTrailing(s, w[..|w| - 1]);
    }
  }

  function RuleEnd(r: AtRule, rest: string): string {
    if r.block.Some? then "{" + r.block.value + "}" + rest else ";" + rest
  }

  // ----- what the parsers can produce -----

  lemma {:induction false} IdentPrefixIs(s: string)
    ensures forall i :: 0 <= i < |IdentPrefix(s)| ==> IsIdentChar(IdentPrefix(s)[i])
  {
    if s != "" && IsIdentChar(s[0]) { IdentPrefixIs(s[1..]); }
  }

  lemma MatcherShape(s: string)
    requires Matcher(s).Ok?
    ensures var m := Matcher(s).value;
      if m.0.Exists? then m.1.None? && Matcher(s).rest == s && StartsWith(s, ']') else m.1.Some?
  {
  }

  /** Every selector the parser accepts is printable, so parsing undoes printing exactly for the printable ones. */
  lemma ParsedIsPrintable(s: string)
    requires Attribute(s).Ok?
    ensures Printable(Attribute(s).value)
  {
    hide Matcher, IdentPrefix;
    var s1 := Expect(s, '[').rest;
    IdentPrefixIs(TrimStart(s1));
    var s2 := Ident(TrimStart(s1)).rest;
    MatcherShape(TrimStart(s2));
  }

  /** What was skipped before the text that is left. */
  lemma SkippedBlank(s: string) returns (w: string)
    ensures s == w + TrimStart(s) && AllSpace(w)
  {
    w := StartCut(s);
  }

  lemma ReadsOperator(s: string)
    requires ReadOperator(s).Ok?
    ensures var r := ReadOperator(s); !r.value.Exists? && s == OperatorText(r.value) + r.rest
  {
    if s[0] == '=' {
      assert s == "=" + s[1..];
    } else {
      var t := s[1..];
      assert t[0] == '=' && s == [s[0]] + ("=" + t[1..]);
      assert s == [s[0], '='] + t[1..];
    }
  }

  /** The flag and the closing bracket, as they were written. */
  lemma ReadsClosing(name: string, m: (Operator, Option<string>), s: string)
    returns (w: string, f: string, x: string)
    requires Closing(name, m, s).Ok?
    ensures var r := Closing(name, m, s);
      && s == w + (f + (x + ("]" + r.rest))) && AllSpace(w) && AllSpace(x)
      && (if r.value.ignoreCase then f == "i" || f == "I" else f == "")
      && r.value == AttributeSelector(name, m.0, m.1, r.value.ignoreCase)
      && (StartsWith(s, ']') ==> w == "" && f == "" && x == "")
  {
    var s4 := TrimStart(s);
    w := SkippedBlank(s);
    f := if StartsWith(s4, 'i') || StartsWith(s4, 'I') then [s4[0]] else "";
    var after := if f == "" then s4 else s4[1..];
    assert s4 == f + after;
    x := SkippedBlank(after);
    var s5 := TrimStart(after);
    assert s5 == "]" + s5[1..];
    if StartsWith(s, ']') { assert s4 == s && after == s && s5 == s; }
  }

  /** Whatever is read as a selector was one of its written forms. */
  lemma ReadForm(s: string) returns (w: Spacing, v: string, f: string)
    requires Attribute(s).Ok?
    ensures var r := Attribute(s); Form(r.value, w, v, f) && s == FormText(r.value, w, v, f) + r.rest
  {
    var a, rest := Attribute(s).value, Attribute(s).rest;
    var s1 := Expect(s, '[').rest;
    assert s == "[" + s1;
    var t1 := TrimStart(s1);
    var open := SkippedBlank(s1);
    var s2 := Ident(t1).rest;
    IdentPrefixIs(t1);
    assert t1 == a.name + s2;
    var t2 := TrimStart(s2);
    var gap := SkippedBlank(s2);
    MatcherShape(t2);
    var m, s3 := Matcher(t2).value, Matcher(t2).rest;
    var x, g, y := ReadsClosing(a.name, m, s3);
    f := g;
    if a.operator.Exists? {
      v := "";
      w := Spacing(open, gap, "", "", "");
      NothingBetween(a, w, rest);
      assert "" + ("" + ("" + ("]" + rest))) == "]" + rest;
    } else {
      var o := ReadOperator(t2);
      ReadsOperator(t2);
      var t3 := TrimStart(o.rest);
      var before := SkippedBlank(o.rest);
      v := ReadValue(t3);
      w := Spacing(open, gap, before, x, y);
      FlagIsApart(v, x, f, s3, y + ("]" + rest));
    }
    WrittenForm(a, w, v, f, rest);
  }

  lemma FlagIsApart(v: string, x: string, f: string, s3: string, t: string)
    requires s3 == x + (f + t) && (f == "" || f == "i" || f == "I")
    requires IsIdent(v) ==> s3 == "" || !IsIdentChar(s3[0])
    ensures IsIdent(v) && f != "" ==> x != ""
  {
    if x == "" && f != "" { assert s3[0] == f[0]; }
  }

  /** The parser accepts exactly the written forms of a selector, and stops right after them. */
  lemma AttributeIff(s: string, a: AttributeSelector, rest: string)
    ensures Attribute(s) == Ok(a, rest) <==> exists w, v, f :: Form(a, w, v, f) && s == FormText(a, w, v, f) + rest
  {
    hide Attribute, Form, FormText;
    if Attribute(s) == Ok(a, rest) { var w, v, f := ReadForm(s); }
    forall w, v, f | Form(a, w, v, f) && s == FormText(a, w, v, f) + rest ensures Attribute(s) == Ok(a, rest) {
      FormRead(a, w, v, f, rest);
    }
  }

  lemma AttributeRoundTripIff(a: AttributeSelector, quote: char, w: Spacing, rest: string)
    requires (quote == '"' || quote == '\'') && Blank(w)
    ensures Attribute(PrintAttribute(a, quote, w) + rest) == Ok(a, rest) <==> Printable(a)
  {
    hide Attribute, PrintAttribute, Printable;
    if Printable(a) { AttributeRoundTrip(a, quote, w, rest); }
    if Attribute(PrintAttribute(a, quote, w) + rest) == Ok(a, rest) {
      ParsedIsPrintable(PrintAttribute(a, quote, w) + rest);
    }
  }

  lemma {:induction false} PreludePrefixIs(s: string)
    ensures forall i :: 0 <= i < |PreludePrefix(s)| ==> PreludePrefix(s)[i] != '{' && PreludePrefix(s)[i] != ';'
  {
    if s != "" && s[0] != '{' && s[0] != ';' { PreludePrefixIs(s[1..]); }
  }

  lemma {:induction false} TrimStartContents(s: string, i: nat)
    requires i < |TrimStart(s)|
    ensures TrimStart(s)[i] in s
  {
    if s != "" && IsSpace(s[0]) { TrimStartContents(s[1..], i); }
  }

  lemma TrimContents(s: string, i: nat)
    requires i < |Trim(s)|
    ensures Trim(s)[i] in s
  {
    TrimEndIs(TrimStart(s));
    TrimStartContents(s, i);
  }

  lemma PreludeShape(s3: string)
    ensures var p := Trim(PreludePrefix(s3));
      (forall i :: 0 <= i < |p| ==> p[i] != '{' && p[i] != ';') && Trimmed(p)
  {
    hide Trim, PreludePrefix;
    var prelude := PreludePrefix(s3);
    PreludePrefixIs(s3);
    TrimIsTrimmed(prelude);
    forall i | 0 <= i < |Trim(prelude)| ensures Trim(prelude)[i] != '{' && Trim(prelude)[i] != ';' {
      TrimContents(prelude, i);
    }
  }

  // ----- exactly which texts are read as a rule -----

  /** A block with its closing brace, or to the end of the text; a semicolon, or the end of the text. */
  ghost predicate EndForm(r: AtRule, e: string, rest: string) {
    match r.block
    case Some(b) => (e == "{" + b + "}" + rest && Balanced(b)) || (e == "{" + b && rest == "" && Depth(b, 0).Some?)
    case None => e == ";" + rest || (e == "" && rest == "")
  }

  /** The ways to write a rule: blanks around a prelude free of braces and semicolons, then its end. */
  ghost predicate RuleForm(r: AtRule, gap: string, after: string, e: string, rest: string) {
    && IsIdent(r.name) && AllSpace(gap) && AllSpace(after) && Trimmed(r.prelude)
    && (forall i :: 0 <= i < |r.prelude| ==> r.prelude[i] != '{' && r.prelude[i] != ';')
    && (r.prelude != "" && gap == "" ==> !IsIdentChar(r.prelude[0]))
    && EndForm(r, e, rest)
  }

  function RuleText(r: AtRule, gap: string, after: string, e: string): string {
    "@" + (r.name + (gap + (r.prelude + (after + e))))
  }

  lemma {:induction false} BlockToTheEnd(s: string, depth: nat)
    requires Depth(s, depth).Some?
    ensures BlockPrefix(s, depth + 1) == s
  {
    if s != "" {
      assert s == [s[0]] + s[1..];
      if s[0] == '{' {
        BlockToTheEnd(s[1..], depth + 1);
      } else if s[0] == '}' {
        BlockToTheEnd(s[1..], depth - 1);
      } else {
        BlockToTheEnd(s[1..], depth);
      }
    }
  }

  /** What the rule's end does to the parser. */
  lemma EndRead(r: AtRule, e: string, rest: string)
    requires EndForm(r, e, rest)
    ensures e == "" || e[0] == '{' || e[0] == ';'
    ensures if r.block.Some? then
        StartsWith(e, '{') && BlockPrefix(e[1..], 1) == r.block.value && Tail(e[1..][|r.block.value|..]) == rest
      else !StartsWith(e, '{') && (if StartsWith(e, ';') then e[1..] else e) == rest
  {
    hide BlockPrefix, Depth;
    if r.block.Some? {
      var b := r.block.value;
      if e == "{" + b + "}" + rest && Balanced(b) {
        BlockJoined(b, 0, rest);
        assert e[1..] == b + "}" + rest;
        assert e[1..][|b|..] == "}" + rest && ("}" + rest)[1..] == rest;
      } else {
        BlockToTheEnd(b, 0);
        assert e[1..] == b && b[|b|..] == "";
      }
    }
  }

  lemma TailRead(r: AtRule, after: string, e: string, rest: string)
    requires RuleForm(r, " ", after, e, rest)
    ensures RuleTail(r.name, r.prelude + after + e) == Ok(r, rest)
  {
    EndRead(r, e, rest);
    hide Trim, PreludePrefix, BlockPrefix, EndForm, IsIdent;
    var prelude := r.prelude + after;
    forall i | 0 <= i < |prelude| ensures prelude[i] != '{' && prelude[i] != ';' { }
    PreludeJoined(prelude, e);
    assert (prelude + e)[|prelude|..] == e;
    TrimTrailing(r.prelude, after);
  }

  lemma RuleRead(r: AtRule, gap: string, after: string, e: string, rest: string)
    requires RuleForm(r, gap, after, e, rest)
    ensures ReadAtRule(RuleText(r, gap, after, e)) == Ok(r, rest)
  {
    EndRead(r, e, rest);
    var text := gap + (r.prelude + (after + e));
    NameEnds(r, gap, after, e);
    IdentJoined(r.name, text);
    TailReadTrimmed(r, gap, after, e, rest);
    hide Ident, TrimStart, RuleTail, EndForm, RuleForm;
    var s := RuleText(r, gap, after, e);
    assert s[0] == '@' && s[1..] == r.name + text;
  }

  lemma TailReadTrimmed(r: AtRule, gap: string, after: string, e: string, rest: string)
    requires RuleForm(r, gap, after, e, rest)
    ensures RuleTail(r.name, TrimStart(gap + (r.prelude + (after + e)))) == Ok(r, rest)
  {
    EndRead(r, e, rest);
    TailRead(r, if r.prelude == "" then "" else after, e, rest);
    hide TrimStart, RuleTail, EndForm, IsIdent;
    if r.prelude == "" { SkipToEnd(gap, after, e); } else { SkipToPrelude(gap, r.prelude, after, e); }
  }

  lemma SkipToEnd(gap: string, after: string, e: string)
    requires AllSpace(gap) && AllSpace(after) && (e == "" || !IsSpace(e[0]))
    ensures TrimStart(gap + ("" + (after + e))) == "" + "" + e
  {
    hide TrimStart;
    assert gap + ("" + (after + e)) == (gap + after) + e;
    SkipBlank(gap + after, e);
    assert "" + "" + e == e;
  }

  lemma SkipToPrelude(gap: string, prelude: string, after: string, e: string)
    requires AllSpace(gap) && prelude != "" && !IsSpace(prelude[0])
    ensures TrimStart(gap + (prelude + (after + e))) == prelude + after + e
  {
    hide TrimStart;
    Join3(prelude, after, e);
    assert (prelude + after + e)[0] == prelude[0];
    SkipBlank(gap, prelude + after + e);
  }

  lemma NameEnds(r: AtRule, gap: string, after: string, e: string)
    requires AllSpace(gap) && AllSpace(after) && (e == "" || e[0] == '{' || e[0] == ';')
    requires r.prelude != "" && gap == "" ==> !IsIdentChar(r.prelude[0])
    ensures var text := gap + (r.prelude + (after + e)); text == "" || !IsIdentChar(text[0])
  {
    var text := gap + (r.prelude + (after + e));
    if gap != "" {
      assert text[0] == gap[0];
    } else if r.prelude != "" {
      assert text[0] == r.prelude[0];
    } else if after != "" {
      assert text[0] == after[0];
    } else {
      assert text == e;
    }
  }

  /** A text that does not begin with a blank is what trimming leaves of it, and blanks. */
  lemma TrimmedSplit(p: string) returns (after: string)
    requires p == "" || !IsSpace(p[0])
    ensures p == Trim(p) + after && AllSpace(after) && (Trim(p) == "" ==> after == "") && Trimmed(Trim(p))
  {
    var before;
    before, after := TrimIs(p);
    hide Trim;
    assert before == "";
    assert "" + Trim(p) == Trim(p);
    assert Trim(p) == "" ==> p == after;
  }

  /** What was read after the name: the prelude, the blanks that were trimmed off it, and the end. */
  lemma ReadTail(name: string, s3: string) returns (after: string, e: string)
    requires s3 == "" || !IsSpace(s3[0])
    ensures RuleTail(name, s3).Ok?
    ensures var r, rest := RuleTail(name, s3).value, RuleTail(name, s3).rest;
      && s3 == r.prelude + (after + e) && AllSpace(after) && EndForm(r, e, rest)
  {
    var p := PreludePrefix(s3);
    e := s3[|p|..];
    PreludeStops(s3);
    EndWritten(name, s3, e);
    TailIs(name, s3);
    hide Trim, PreludePrefix, EndForm, RuleTail, Trimmed;
    assert s3 == p + e && (p != "" ==> p[0] == s3[0]);
    after := TrimmedSplit(p);
    Join3(Trim(p), after, e);
  }

  lemma {:induction false} PreludeStops(s: string)
    ensures var e := s[|PreludePrefix(s)|..]; e == "" || e[0] == '{' || e[0] == ';'
  {
    if s != "" && s[0] != '{' && s[0] != ';' {
      PreludeStops(s[1..]);
      assert s[|PreludePrefix(s)|..] == s[1..][|PreludePrefix(s[1..])|..];
    }
  }

  /** A block as it was written: up to its closing brace, or to the end of the text. */
  lemma BlockWritten(body: string)
    ensures var b := BlockPrefix(body, 1);
      var rest := Tail(body[|b|..]);
      (body == b + "}" + rest && Balanced(b)) || (body == b && rest == "" && Depth(b, 0).Some?)
  {
    hide Depth;
    var b := BlockPrefix(body, 1);
    BlockPrefixIs(body, 0);
    hide BlockPrefix;
    if b == body {
      assert body[|b|..] == "";
    } else {
      var t := body[|b|..];
      assert t[0] == '}' && t == "}" + t[1..] && body == b + t;
      Join3(b, "}", t[1..]);
    }
  }

  lemma EndWritten(name: string, s3: string, e: string)
    requires e == s3[|PreludePrefix(s3)|..] && (e == "" || e[0] == '{' || e[0] == ';')
    ensures var x := RuleTail(name, s3); x.Ok? && EndForm(x.value, e, x.rest)
  {
    hide Trim, BlockPrefix, Depth, PreludePrefix;
    if StartsWith(e, '{') {
      var body := e[1..];
      BlockWritten(body);
      assert e == "{" + body;
      var b := BlockPrefix(body, 1);
      Join3("{", b + "}", Tail(body[|b|..]));
      Join3("{", b, "}");
    } else if e != "" {
      assert e == ";" + e[1..];
    }
  }

  /** The name as it was written, and what was left after it. */
  lemma ReadName(s: string) returns (gap: string)
    requires Expect(s, '@').Ok? && Ident(Expect(s, '@').rest).Ok?
    ensures var x := Ident(Expect(s, '@').rest);
      && s == "@" + (x.value + (gap + TrimStart(x.rest))) && IsIdent(x.value) && AllSpace(gap)
      && (x.rest == "" || !IsIdentChar(x.rest[0])) && x.rest == gap + TrimStart(x.rest)
  {
    var s1 := Expect(s, '@').rest;
    assert s == "@" + s1;
    IdentPrefixIs(s1);
    IdentEnds(s1);
    gap := SkippedBlank(Ident(s1).rest);
    hide IdentPrefix, TrimStart;
    assert s1 == Ident(s1).value + Ident(s1).rest;
  }

  lemma ReadRuleForm(s: string) returns (gap: string, after: string, e: string)
    requires ReadAtRule(s).Ok?
    ensures var r, rest := ReadAtRule(s).value, ReadAtRule(s).rest;
      RuleForm(r, gap, after, e, rest) && s == RuleText(r, gap, after, e)
  {
    gap := ReadName(s);
    var x := Ident(Expect(s, '@').rest);
    var s3 := TrimStart(x.rest);
    assert ReadAtRule(s) == RuleTail(x.value, s3);
    hide ReadAtRule, RuleTail, Expect, Ident;
    TrimStartIs(x.rest);
    after, e := ReadTail(x.value, s3);
    RuleIs(x.value, s3, gap, after, e, x.rest);
  }

  lemma RuleIs(name: string, s3: string, gap: string, after: string, e: string, s2: string)
    requires RuleTail(name, s3).Ok? && IsIdent(name) && AllSpace(gap) && AllSpace(after)
    requires s2 == gap + s3 && (s2 == "" || !IsIdentChar(s2[0]))
    requires var r, rest := RuleTail(name, s3).value, RuleTail(name, s3).rest;
      s3 == r.prelude + (after + e) && EndForm(r, e, rest)
    ensures var r, rest := RuleTail(name, s3).value, RuleTail(name, s3).rest; RuleForm(r, gap, after, e, rest)
    ensures RuleTail(name, s3).value.name == name
  {
    PreludeShape(s3);
    TailIs(name, s3);
    hide RuleTail, EndForm, Trim, PreludePrefix, IsIdent;
    GapNeeded(gap, RuleTail(name, s3).value.prelude, after + e, s2);
  }

  lemma TailIs(name: string, s3: string)
    ensures RuleTail(name, s3).Ok? && RuleTail(name, s3).value.name == name
    ensures RuleTail(name, s3).value.prelude == Trim(PreludePrefix(s3))
  {
  }

  lemma GapNeeded(gap: string, prelude: string, tail: string, s2: string)
    requires s2 == gap + (prelude + tail) && (s2 == "" || !IsIdentChar(s2[0]))
    ensures prelude != "" && gap == "" ==> !IsIdentChar(prelude[0])
  {
    if prelude != "" && gap == "" { assert s2[0] == prelude[0]; }
  }

  /** The parser accepts exactly the written forms of a rule, and stops right after them. */
  lemma AtRuleIff(s: string, r: AtRule, rest: string)
    ensures ReadAtRule(s) == Ok(r, rest)
       <==> exists gap, after, e :: RuleForm(r, gap, after, e, rest) && s == RuleText(r, gap, after, e)
  {
    hide ReadAtRule, RuleForm, RuleText;
    if ReadAtRule(s) == Ok(r, rest) { var gap, after, e := ReadRuleForm(s); }
    forall gap, after, e | RuleForm(r, gap, after, e, rest) && s == RuleText(r, gap, after, e)
      ensures ReadAtRule(s) == Ok(r, rest)
    {
      RuleRead(r, gap, after, e, rest);
    }
  }

  /** Printing any at-rule whose block is balanced and parsing it gives it back, with the cursor just past it. */
  lemma AtRuleRoundTrip(r: AtRule, gap: string, after: string, rest: string)
    requires PrintableRule(r) && AllSpace(gap) && AllSpace(after) && (r.prelude == "" || gap != "")
    ensures ReadAtRule(PrintRule(r, gap, after) + rest) == Ok(r, rest)
  {
    hide ReadAtRule, Depth;
    PrintIsText(r, gap, after, rest);
    RuleRead(r, gap, after, RuleEnd(r, rest), rest);
  }

  lemma PrintIsText(r: AtRule, gap: string, after: string, rest: string)
    ensures PrintRule(r, gap, after) + rest == RuleText(r, gap, after, RuleEnd(r, rest))
  {
    var e := if r.block.Some? then "{" + r.block.value + "}" else ";";
    assert e + rest == RuleEnd(r, rest);
    Join3(after, e, rest);
    Join3(r.prelude, after + e, rest);
    Join3(gap, r.prelude + (after + e), rest);
    Join3(r.name, gap + (r.prelude + (after + e)), rest);
    Join3("@", r.name + (gap + (r.prelude + (after + e))), rest);
  }

  predicate EndsWith(s: string, t: string) {
    |t| <= |s| && s[|s| - |t|..] == t
  }

  /** The block was still open when the text ended, and took all of it. */
  predicate Unclosed(r: AtRule, s: string) {
    r.block.Some? && PrintableRule(r.(block := None)) && Depth(r.block.value, 0).Some? && EndsWith(s, r.block.value)
  }

  /** Every rule read is printable, unless the text ended inside its block. */
  lemma ParsedRuleIsPrintable(s: string)
    requires ReadAtRule(s).Ok?
    ensures var r := ReadAtRule(s).value;
      PrintableRule(r) || (ReadAtRule(s).rest == "" && Unclosed(r, s))
  {
    hide ReadAtRule, Depth, IsIdent;
    var gap, after, e := ReadRuleForm(s);
    var r := ReadAtRule(s).value;
    if !PrintableRule(r) {
      var b := r.block.value;
      assert s == "@" + (r.name + (gap + (r.prelude + (after + "{")))) + b by { OpenBlock(r, gap, after, b); }
    }
  }

  lemma OpenBlock(r: AtRule, gap: string, after: string, b: string)
    ensures RuleText(r, gap, after, "{" + b) == "@" + (r.name + (gap + (r.prelude + (after + "{")))) + b
  {
    Join3(after, "{", b);
    Join3(r.prelude, after + "{", b);
    Join3(gap, r.prelude + (after + "{"), b);
    Join3(r.name, gap + (r.prelude + (after + "{")), b);
    Join3("@", r.name + (gap + (r.prelude + (after + "{"))), b);
  }

  /** Text that ends in `t}` ends in `t` only if `t` is all closing braces. */
  lemma {:induction false} ShiftedEnding(s: string, t: string, i: nat)
    requires EndsWith(s, t + "}") && EndsWith(s, t) && i < |t|
    ensures t[i] == '}'
    decreases |t| - i
  {
    var n := |s| - |t|;
    assert t[i] == s[n..][i] == s[n + i];
    assert (t + "}")[i + 1] == s[n - 1..][i + 1] == s[n + i];
    if i + 1 < |t| { ShiftedEnding(s, t, i + 1); }
  }

  /** A rule survives printing and parsing exactly when it is printable: in particular its block is balanced. */
  lemma AtRuleRoundTripIff(r: AtRule, gap: string, after: string, rest: string)
    requires AllSpace(gap) && AllSpace(after) && (r.prelude == "" || gap != "")
    ensures ReadAtRule(PrintRule(r, gap, after) + rest) == Ok(r, rest) <==> PrintableRule(r)
  {
    hide ReadAtRule, Depth, PrintRule, EndsWith;
    var s := PrintRule(r, gap, after) + rest;
    if PrintableRule(r) { AtRuleRoundTrip(r, gap, after, rest); }
    if ReadAtRule(s) == Ok(r, rest) {
      ParsedRuleIsPrintable(s);
      if Unclosed(r, s) && rest == "" {
        var t := r.block.value;
        ClosedEnd(r, gap, after);
        UnclosedIsEmpty(s, t);
      }
    }
  }

  lemma ClosedEnd(r: AtRule, gap: string, after: string)
    requires r.block.Some?
    ensures EndsWith(PrintRule(r, gap, after) + "", r.block.value + "}")
  {
    var t := r.block.value + "}";
    PrintIsText(r, gap, after, "");
    assert RuleEnd(r, "") == "{" + t;
    OpenBlock(r, gap, after, t);
    hide PrintRule, RuleText;
    var head := "@" + (r.name + (gap + (r.prelude + (after + "{"))));
    assert (head + t)[|head|..] == t;
  }

  lemma UnclosedIsEmpty(s: string, t: string)
    requires EndsWith(s, t + "}") && EndsWith(s, t) && Depth(t, 0).Some?
    ensures Balanced(t)
  {
    if t != "" { ShiftedEnding(s, t, 0); }
  }

  // ----- the parser with its cursor -----

  lemma IdentStep(input: string, pos: nat)
    requires pos <= |input|
    ensures IdentPrefix(input[pos..]) <= input[pos..]
    ensures |IdentPrefix(input[pos..])|
         == if pos < |input| && IsIdentChar(input[pos]) then 1 + |IdentPrefix(input[pos + 1..])| else 0
  {
    if pos < |input| { assert input[pos..][1..] == input[pos + 1..]; }
  }

  lemma PreludeStep(input: string, pos: nat)
    requires pos <= |input|
    ensures PreludePrefix(input[pos..]) <= input[pos..]
    ensures |PreludePrefix(input[pos..])| ==
      if pos < |input| && input[pos] != '{' && input[pos] != ';' then 1 + |PreludePrefix(input[pos + 1..])| else 0
  {
    if pos < |input| { assert input[pos..][1..] == input[pos + 1..]; }
  }

  lemma BlockStep(input: string, pos: nat, depth: nat)
    requires pos <= |input| && depth > 0
    ensures BlockPrefix(input[pos..], depth) <= input[pos..]
    ensures |BlockPrefix(input[pos..], depth)| ==
      if pos == |input| || (input[pos] == '}' && depth == 1) then 0
      else 1 + |BlockPrefix(
        input[pos + 1..], if input[pos] == '{' then depth + 1 else if input[pos] == '}' then depth - 1 else depth)|
  {
    if pos < |input| { assert input[pos..][1..] == input[pos + 1..]; }
  }

  lemma PrefixIsSlice(input: string, start: nat, pos: nat, t: string)
    requires start <= pos <= |input| && t <= input[start..] && |t| == pos - start
    ensures t == input[start..pos] && input[start..][|t|..] == input[pos..]
  {
  }

  datatype Outcome<+T> = Done(value: T) | Failed(error: ParseError)

  function Result<T>(o: Outcome<T>, rest: string): Parse<T> {
    match o
    case Done(v) => Ok(v, rest)
    case Failed(e) => Err(e, rest)
  }

  /** `whole` is what has been read so far followed by `tail`. */
  predicate Continues(whole: Parse<string>, sofar: string, tail: Parse<string>) {
    if tail.Ok? then whole == Ok(sofar + tail.value, tail.rest) else whole == tail
  }

  lemma StringStep(input: string, pos: nat, quote: char)
    requires pos <= |input|
    ensures var t := StringTail(input[pos..], quote);
      if pos == |input| then t == Err(UnclosedString, "")
      else if input[pos] == quote then t == Ok("", input[pos + 1..])
      else if input[pos] == '\\' then
        (if pos + 1 == |input| then t == Err(UnclosedString, "")
         else t == Prepend(input[pos + 1], StringTail(input[pos + 2..], quote)))
      else t == Prepend(input[pos], StringTail(input[pos + 1..], quote))
  {
    if pos < |input| {
      assert input[pos..][1..] == input[pos + 1..];
      if pos + 1 < |input| { assert input[pos..][2..] == input[pos + 2..]; }
    }
  }

  function Prepend(c: char, t: Parse<string>): Parse<string> {
    if t.Ok? then Ok([c] + t.value, t.rest) else t
  }

  lemma Reassociate(a: string, c: char, t: Parse<string>)
    ensures t.Ok? ==> a + ([c] + t.value) == (a + [c]) + t.value
  {
  }

  class Reader {
    const input: string
    var pos: nat

    ghost predicate Valid()
      reads this
    {
      pos <= |input|
    }

    ghost function Left(): string
      reads this
      requires Valid()
    {
      input[pos..]
    }

    constructor (text: string)
      ensures Valid() && Left() == text
    {
      input, pos := text, 0;
    }

    method PeekChar() returns (c: Option<char>)
      requires Valid()
      ensures c == if Left() == "" then None else Some(Left()[0])
    {
      c := if pos < |input| then Some(input[pos]) else None;
    }

    method ConsumeChar() returns (c: Option<char>)
      requires Valid()
      modifies this
      ensures Valid() && c == (if old(Left()) == "" then None else Some(old(Left())[0])) && Left() == Tail(old(Left()))
      ensures pos == if old(Left()) == "" then old(pos) else old(pos) + 1
    {
      if pos < |input| {
        c := Some(input[pos]);
        pos := pos + 1;
      } else {
        c := None;
      }
    }

    method ExpectChar(c: char) returns (r: Outcome<()>)
      requires Valid()
      modifies this
      ensures Valid() && Result(r, Left()) == Expect(old(Left()), c)
    {
      var got := ConsumeChar();
      r := if got == Some(c) then Done(()) else Failed(UnexpectedToken("expected '" + [c] + "'"));
    }

    method SkipWhitespace()
      requires Valid()
      modifies this
      ensures Valid() && Left() == TrimStart(old(Left()))
    {
      while pos < |input| && IsSpace(input[pos])
        invariant Valid() && TrimStart(Left()) == TrimStart(old(Left()))
      {
        assert Left()[1..] == input[pos + 1..];
        pos := pos + 1;
      }
    }

    method ParseIdent() returns (r: Outcome<string>)
      requires Valid()
      modifies this
      ensures Valid() && Result(r, Left()) == Ident(old(Left()))
    {
      hide IdentPrefix, IsIdentChar;
      var result := "";
      ghost var start := pos;
      while pos < |input| && IsIdentChar(input[pos])
        invariant start <= pos <= |input| && result == input[start..pos]
        invariant |IdentPrefix(input[pos..])| + pos == |IdentPrefix(input[start..])| + start
      {
        IdentStep(input, pos);
        result := result + [input[pos]];
        pos := pos + 1;
      }
      IdentStep(input, pos);
      IdentStep(input, start);
      PrefixIsSlice(input, start, pos, IdentPrefix(input[start..]));
      r := if result == "" then Failed(UnexpectedToken("expected identifier")) else Done(result);
    }

    method ParseString() returns (r: Outcome<string>)
      requires Valid() && (StartsWith(Left(), '"') || StartsWith(Left(), '\''))
      modifies this
      ensures Valid() && Result(r, Left()) == StringTail(old(Left())[1..], old(Left())[0])
    {
      hide StringTail;
      var quote := input[pos];
      pos := pos + 1;
      ghost var whole := StringTail(Left(), quote);
      var result := "";
      assert whole.Ok? ==> "" + whole.value == whole.value;
      while pos < |input|
        invariant Valid()
        invariant Continues(whole, result, StringTail(Left(), quote))
        decreases |input| - pos
      {
        StringStep(input, pos, quote);
        var c := input[pos];
        pos := pos + 1;
        if c == quote {
          assert result + "" == result;
          return Done(result);
        } else if c == '\\' {
          if pos < |input| {
            Reassociate(result, input[pos], StringTail(input[pos + 1..], quote));
            result := result + [input[pos]];
            pos := pos + 1;
          } else {
            StringStep(input, pos, quote);
          }
        } else {
          Reassociate(result, c, StringTail(input[pos..], quote));
          result := result + [c];
        }
      }
      StringStep(input, pos, quote);
      r := Failed(UnclosedString);
    }

    method ParseStringOrIdent() returns (r: Outcome<string>)
      requires Valid()
      modifies this
      ensures Valid() && Result(r, Left()) == StringOrIdent(old(Left()))
    {
      if pos < |input| && (input[pos] == '"' || input[pos] == '\'') {
        r := ParseString();
      } else {
        r := ParseIdent();
      }
    }

    method ParseAttributeOperator() returns (r: Outcome<Operator>)
      requires Valid()
      modifies this
      ensures Valid() && Result(r, Left()) == ReadOperator(old(Left()))
    {
      var c := PeekChar();
      if c.None? {
        return Failed(UnexpectedToken("expected attribute operator"));
      }
      if c.value == '=' {
        var _ := ConsumeChar();
        return Done(Equals);
      }
      var op := OperatorOf(c.value);
      if op.None? {
        return Failed(UnexpectedToken("expected attribute operator"));
      }
      var _ := ConsumeChar();
      var e := ExpectChar('=');
      r := if e.Done? then Done(op.value) else Failed(e.error);
    }

    method ParseMatcher() returns (r: Outcome<(Operator, Option<string>)>)
      requires Valid()
      modifies this
      ensures Valid() && Result(r, Left()) == Matcher(old(Left()))
    {
      var c := PeekChar();
      if c == Some(']') {
        return Done((Exists, None));
      }
      var op := ParseAttributeOperator();
      if op.Failed? { return Failed(op.error); }
      SkipWhitespace();
      var v := ParseStringOrIdent();
      if v.Failed? { return Failed(v.error); }
      r := Done((op.value, Some(v.value)));
    }

    method ParseAttributeSelector() returns (r: Outcome<AttributeSelector>)
      requires Valid()
      modifies this
      ensures Valid() && Result(r, Left()) == Attribute(old(Left()))
    {
      hide Matcher, Ident, TrimStart;
      var open := ExpectChar('[');
      if open.Failed? { return Failed(open.error); }
      SkipWhitespace();
      var name := ParseIdent();
      if name.Failed? { return Failed(name.error); }
      SkipWhitespace();
      var m := ParseMatcher();
      if m.Failed? { return Failed(m.error); }
      SkipWhitespace();
      var c := PeekChar();
      var ignoreCase := c == Some('i') || c == Some('I');
      if ignoreCase {
        var _ := ConsumeChar();
      }
      SkipWhitespace();
      var close := ExpectChar(']');
      if close.Failed? { return Failed(close.error); }
      r := Done(AttributeSelector(name.value, m.value.0, m.value.1, ignoreCase));
    }

    method ConsumeUntilBlockStart() returns (result: string)
      requires Valid()
      modifies this
      ensures Valid() && result == PreludePrefix(old(Left())) && Left() == old(Left())[|result|..]
    {
      hide PreludePrefix;
      result := "";
      ghost var start := pos;
      while pos < |input| && input[pos] != '{' && input[pos] != ';'
        invariant start <= pos <= |input| && result == input[start..pos]
        invariant |PreludePrefix(input[pos..])| + pos == |PreludePrefix(input[start..])| + start
      {
        PreludeStep(input, pos);
        result := result + [input[pos]];
        pos := pos + 1;
      }
      PreludeStep(input, pos);
      PreludeStep(input, start);
      PrefixIsSlice(input, start, pos, PreludePrefix(input[start..]));
    }

    method ConsumeBlockContent() returns (result: string)
      requires Valid()
      modifies this
      ensures Valid() && result == BlockPrefix(old(Left()), 1) && Left() == old(Left())[|result|..]
    {
      hide BlockPrefix;
      result := "";
      var depth := 1;
      ghost var start := pos;
      while pos < |input|
        invariant start <= pos <= |input| && depth >= 1 && result == input[start..pos]
        invariant |BlockPrefix(input[pos..], depth)| + pos == |BlockPrefix(input[start..], 1)| + start
      {
        BlockStep(input, pos, depth);
        var c := input[pos];
        if c == '{' {
          depth := depth + 1;
        } else if c == '}' {
          if depth == 1 {
            break;
          }
          depth := depth - 1;
        }
        result := result + [c];
        pos := pos + 1;
      }
      BlockStep(input, pos, depth);
      BlockStep(input, start, 1);
      PrefixIsSlice(input, start, pos, BlockPrefix(input[start..], 1));
    }

    method ParseRuleTail(name: string) returns (r: AtRule)
      requires Valid()
      modifies this
      ensures Valid() && Ok(r, Left()) == RuleTail(name, old(Left()))
    {
      hide PreludePrefix, BlockPrefix, Trim;
      var prelude := ConsumeUntilBlockStart();
      var c := PeekChar();
      var block: Option<string> := None;
      if c == Some('{') {
        var _ := ConsumeChar();
        var content := ConsumeBlockContent();
        var _ := ConsumeChar();
        block := Some(content);
      } else if c == Some(';') {
        var _ := ConsumeChar();
      }
      r := AtRule(name, Trim(prelude), block);
    }

    method ParseAtRule() returns (r: Outcome<AtRule>)
      requires Valid()
      modifies this
      ensures Valid() && Result(r, Left()) == ReadAtRule(old(Left()))
    {
      hide Ident, TrimStart, RuleTail;
      var at := ExpectChar('@');
      if at.Failed? { return Failed(at.error); }
      var name := ParseIdent();
      if name.Failed? { return Failed(name.error); }
      SkipWhitespace();
      var rule := ParseRuleTail(name.value);
      r := Done(rule);
    }
  }
}
