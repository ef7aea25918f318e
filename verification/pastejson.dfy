/** The text a `StoredPaste` is stored as: the shape `serde_json::to_string`
    gives the derived `Serialize` impl (compact object, fields in declaration
    order, `None` fields omitted), with a strict decoder. Decoding undoes
    encoding, and the decoder accepts no text the encoder would not write. */
module PasteJson {
  import opened Outcomes
  import opened Chrono
  import opened Records

  /** `serde_json::Error`; position and category are not modelled. */
  datatype JsonError = Malformed

  // ---------------------------------------------------------------- literals

  function Expect(lit: string, s: string): (r: Option<string>)
    ensures r.Some? <==> lit <= s
    ensures r.Some? ==> s == lit + r.value
  {
    if lit <= s then Some(s[|lit|..]) else None
  }

  lemma ExpectPrefix(lit: string, rest: string)
    ensures Expect(lit, lit + rest) == Some(rest)
  {
    assert (lit + rest)[|lit|..] == rest;
  }

  predicate EndsWith(s: string, x: string) {
    |x| <= |s| && s[|s| - |x|..] == x
  }

  lemma EndsWithConcat(a: string, b: string)
    ensures EndsWith(a + b, b)
  {
    assert (a + b)[|a + b| - |b|..] == b;
  }

  // ----------------------------------------------------------------- strings

  /** The characters written as a backslash escape. */
  predicate IsEscaped(c: char) {
    c == '"' || c == '\\' || c == '\n' || c == '\r' || c == '\t'
  }

  function EscapeChar(c: char): (e: string)
    ensures IsEscaped(c) ==> |e| == 2 && e[0] == '\\'
    ensures !IsEscaped(c) ==> e == [c]
  {
    if c == '"' then "\\\""
    else if c == '\\' then "\\\\"
    else if c == '\n' then "\\n"
    else if c == '\r' then "\\r"
    else if c == '\t' then "\\t"
    else [c]
  }

  /** The character a two-character escape sequence `\e` stands for. */
  function Unescape(e: char): Option<char> {
    if e == '"' then Some('"')
    else if e == '\\' then Some('\\')
    else if e == 'n' then Some('\n')
    else if e == 'r' then Some('\r')
    else if e == 't' then Some('\t')
    else None
  }

  lemma UnescapeEscapeChar(c: char)
    requires IsEscaped(c)
    ensures Unescape(EscapeChar(c)[1]) == Some(c)
  {
  }

  lemma EscapeCharOfUnescape(e: char)
    requires Unescape(e).Some?
    ensures IsEscaped(Unescape(e).value) && EscapeChar(Unescape(e).value) == ['\\', e]
  {
  }

  function Escape(s: string): string {
    if s == [] then [] else EscapeChar(s[0]) + Escape(s[1..])
  }

  function Quote(s: string): string {
    "\"" + Escape(s) + "\""
  }

  /** Reads string characters up to the closing quote, resolving escapes;
      returns the decoded text and what follows the closing quote. A raw
      character that must be escaped is refused. */
  function ParseStringBody(s: string): (r: Option<(string, string)>)
    ensures r.Some? ==> |r.value.1| < |s|
  {
    if s == [] then None
    else if s[0] == '"' then Some(([], s[1..]))
    else if s[0] == '\\' then
      if |s| < 2 then None
      else
        var c :- Unescape(s[1]);
        var (t, rest) :- ParseStringBody(s[2..]);
        Some(([c] + t, rest))
    else if IsEscaped(s[0]) then None
    else
      var (t, rest) :- ParseStringBody(s[1..]);
      Some(([s[0]] + t, rest))
  }

  function ParseString(s: string): Option<(string, string)> {
    if |s| > 0 && s[0] == '"' then ParseStringBody(s[1..]) else None
  }

  lemma {:induction false} ParseEscaped(x: string, rest: string)
    ensures ParseStringBody(Escape(x) + "\"" + rest) == Some((x, rest))
  {
    if x == [] {
      assert Escape(x) + "\"" + rest == "\"" + rest;
    } else {
      var c := x[0];
      var tail := Escape(x[1..]) + "\"" + rest;
      assert Escape(x) + "\"" + rest == EscapeChar(c) + tail;
      ParseEscaped(x[1..], rest);
      var s := EscapeChar(c) + tail;
      if IsEscaped(c) {
        UnescapeEscapeChar(c);
        assert s[0] == '\\' && Unescape(s[1]) == Some(c) && s[2..] == tail;
      } else {
        assert s[0] == c && s[1..] == tail;
      }
      assert [c] + x[1..] == x;
    }
  }

  /** What the string parser consumed is exactly the escaped text and its
      closing quote. */
  lemma {:induction false} ParsedEscaped(s: string, x: string, rest: string)
    requires ParseStringBody(s) == Some((x, rest))
    ensures s == Escape(x) + "\"" + rest
    decreases |s|
  {
    if s[0] == '"' {
      assert x == [] && rest == s[1..];
      assert s == "\"" + s[1..];
    } else if s[0] == '\\' {
      var c := Unescape(s[1]).value;
      var (t, rest') := ParseStringBody(s[2..]).value;
      assert x == [c] + t && rest == rest';
      ParsedEscaped(s[2..], t, rest');
      EscapeCharOfUnescape(s[1]);
      assert x[0] == c && x[1..] == t;
      assert Escape(x) == EscapeChar(c) + Escape(t);
      assert s == [s[0], s[1]] + s[2..];
    } else {
      var (t, rest') := ParseStringBody(s[1..]).value;
      assert x == [s[0]] + t && rest == rest';
      ParsedEscaped(s[1..], t, rest');
      assert x[0] == s[0] && x[1..] == t;
      assert Escape(x) == [s[0]] + Escape(t);
      assert s == [s[0]] + s[1..];
    }
  }

  lemma ParseQuoted(x: string, rest: string)
    ensures ParseString(Quote(x) + rest) == Some((x, rest))
  {
    var s := Quote(x) + rest;
    assert s[1..] == Escape(x) + "\"" + rest;
    ParseEscaped(x, rest);
  }

  lemma ParsedQuoted(s: string, x: string, rest: string)
    requires ParseString(s) == Some((x, rest))
    ensures s == Quote(x) + rest
  {
    ParsedEscaped(s[1..], x, rest);
    assert s == "\"" + s[1..];
  }

  // ----------------------------------------------------------------- numbers

  predicate IsDigit(c: char) { '0' <= c <= '9' }

  predicate AllDigits(s: string) {
    forall i :: 0 <= i < |s| ==> IsDigit(s[i])
  }

  /** A digit string without a leading zero (other than "0" itself). */
  predicate NoLeadingZero(s: string) {
    |s| == 1 || (|s| > 0 && s[0] != '0')
  }

  /** Decimal digits of `n`, most significant first. */
  function Digits(n: nat): (s: string)
    ensures |s| > 0 && AllDigits(s)
    ensures n > 0 ==> s[0] != '0'
  {
    var d := ('0' as int + n % 10) as char;
    if n < 10 then [d] else Digits(n / 10) + [d]
  }

  function DigitsValue(s: string): nat
    requires AllDigits(s)
  {
    if s == [] then 0
    else DigitsValue(s[..|s| - 1]) * 10 + (s[|s| - 1] as int - '0' as int)
  }

  lemma {:induction false} DigitsValueOfDigits(n: nat)
    ensures DigitsValue(Digits(n)) == n
  {
    if n >= 10 {
      var s := Digits(n);
      assert s[..|s| - 1] == Digits(n / 10);
      DigitsValueOfDigits(n / 10);
    }
  }

  lemma {:induction false} DigitsValuePositive(s: string)
    requires AllDigits(s) && |s| > 0 && s[0] != '0'
    ensures DigitsValue(s) >= 1
    decreases |s|
  {
    if |s| > 1 {
      var q := s[..|s| - 1];
      assert q[0] == s[0];
      DigitsValuePositive(q);
    }
  }

  /** A digit string without a leading zero is the rendering of its value. */
  lemma {:induction false} DigitsOfValue(s: string)
    requires AllDigits(s) && NoLeadingZero(s)
    ensures Digits(DigitsValue(s)) == s
    decreases |s|
  {
    var v := DigitsValue(s);
    var last := s[|s| - 1];
    if |s| == 1 {
      assert s[..0] == [];
      assert DigitsValue(s[..0]) == 0;
      assert v == last as int - '0' as int;
      assert s == [last];
    } else {
      var q := s[..|s| - 1];
      assert q[0] == s[0];
      DigitsOfValue(q);
      DigitsValuePositive(q);
      assert v == DigitsValue(q) * 10 + (last as int - '0' as int);
      assert v / 10 == DigitsValue(q) && v % 10 == last as int - '0' as int;
      assert s == q + [last];
    }
  }

  /** Length of the longest all-digit prefix of `s`. */
  function DigitRun(s: string): (k: nat)
    ensures k <= |s| && AllDigits(s[..k])
    ensures k < |s| ==> !IsDigit(s[k])
  {
    if s == [] || !IsDigit(s[0]) then 0
    else
      var k := 1 + DigitRun(s[1..]);
      assert s[..k] == [s[0]] + s[1..][..k - 1];
      k
  }

  lemma {:induction false} DigitRunOfDigits(p: string, rest: string)
    requires AllDigits(p)
    requires rest == [] || !IsDigit(rest[0])
    ensures DigitRun(p + rest) == |p|
  {
    if p == [] {
      assert p + rest == rest;
    } else {
      assert (p + rest)[1..] == p[1..] + rest;
      DigitRunOfDigits(p[1..], rest);
    }
  }

  function IntText(t: int): string {
    if t < 0 then "-" + Digits(-t) else Digits(t)
  }

  /** A run of digits without a leading zero, and what follows it. */
  function ParseNat(s: string): Option<(nat, string)> {
    var k := DigitRun(s);
    if k == 0 || (k > 1 && s[0] == '0') then None else Some((DigitsValue(s[..k]), s[k..]))
  }

  /** An optional minus sign before a natural number; `-0` is refused. */
  function ParseInt(s: string): Option<(int, string)> {
    if |s| > 0 && s[0] == '-' then
      var (v, rest) :- ParseNat(s[1..]);
      if v == 0 then None else Some((-(v as int), rest))
    else
      var (v, rest) :- ParseNat(s);
      Some((v as int, rest))
  }

  lemma ParseNatDigits(n: nat, rest: string)
    requires rest == [] || !IsDigit(rest[0])
    ensures ParseNat(Digits(n) + rest) == Some((n, rest))
  {
    var p := Digits(n);
    DigitRunOfDigits(p, rest);
    assert (p + rest)[..|p|] == p && (p + rest)[|p|..] == rest;
    assert (p + rest)[0] == p[0];
    DigitsValueOfDigits(n);
  }

  lemma ParsedNat(s: string, n: nat, rest: string)
    requires ParseNat(s) == Some((n, rest))
    ensures s == Digits(n) + rest
  {
    var k := DigitRun(s);
    var p := s[..k];
    assert p[0] == s[0];
    DigitsOfValue(p);
    assert s == p + s[k..];
  }

  lemma ParseNegativeText(n: nat, rest: string)
    requires n > 0
    requires rest == [] || !IsDigit(rest[0])
    ensures ParseInt("-" + Digits(n) + rest) == Some((-(n as int), rest))
  {
    var s := "-" + Digits(n) + rest;
    assert |s| > 0 && s[0] == '-';
    assert s[1..] == Digits(n) + rest;
    ParseNatDigits(n, rest);
    assert ParseNat(s[1..]) == Some((n, rest));
  }

  lemma ParseNonNegativeText(n: nat, rest: string)
    requires rest == [] || !IsDigit(rest[0])
    ensures ParseInt(Digits(n) + rest) == Some((n, rest))
  {
    var p := Digits(n);
    assert (p + rest)[0] == p[0];
    assert p[0] != '-' by { assert IsDigit(p[0]); }
    ParseNatDigits(n, rest);
  }

  lemma ParseIntText(t: int, rest: string)
    requires rest == [] || !IsDigit(rest[0])
    ensures ParseInt(IntText(t) + rest) == Some((t, rest))
  {
    if t < 0 {
      ParseNegativeText(-t, rest);
    } else {
      ParseNonNegativeText(t, rest);
    }
  }

  lemma ParsedNegative(s: string, t: int, rest: string)
    requires |s| > 0 && s[0] == '-'
    requires ParseInt(s) == Some((t, rest))
    ensures s == IntText(t) + rest
  {
    var (v, r) := ParseNat(s[1..]).value;
    assert v != 0 && t == -(v as int) && rest == r;
    ParsedNat(s[1..], v, r);
    assert IntText(t) == "-" + Digits(v);
    assert s == "-" + s[1..];
    assert s == "-" + (Digits(v) + r);
  }

  lemma ParsedNonNegative(s: string, t: int, rest: string)
    requires !(|s| > 0 && s[0] == '-')
    requires ParseInt(s) == Some((t, rest))
    ensures s == IntText(t) + rest
  {
    var (v, r) := ParseNat(s).value;
    assert t == v as int && rest == r;
    ParsedNat(s, v, r);
    assert IntText(t) == Digits(v);
  }

  lemma ParsedInt(s: string, t: int, rest: string)
    requires ParseInt(s) == Some((t, rest))
    ensures s == IntText(t) + rest
  {
    if |s| > 0 && s[0] == '-' {
      ParsedNegative(s, t, rest);
    } else {
      ParsedNonNegative(s, t, rest);
    }
  }

  // ------------------------------------------------------------------ fields

  function BoolText(b: bool): string {
    if b then "true" else "false"
  }

  function ParseBool(s: string): Option<(bool, string)> {
    if "true" <= s then Some((true, s[4..]))
    else if "false" <= s then Some((false, s[5..]))
    else None
  }

  lemma ParseBoolText(b: bool, rest: string)
    ensures ParseBool(BoolText(b) + rest) == Some((b, rest))
  {
    ExpectPrefix(BoolText(b), rest);
    if !b {
      assert (BoolText(b) + rest)[1] == 'a';
    }
  }

  lemma ParsedBool(s: string, b: bool, rest: string)
    requires ParseBool(s) == Some((b, rest))
    ensures s == BoolText(b) + rest
  {
    if "true" <= s {
      assert s == "true" + s[4..];
    } else {
      assert s == "false" + s[5..];
    }
  }

  function StringField(name: string, v: Option<string>): string {
    match v
    case None => []
    case Some(t) => name + Quote(t) + ","
  }

  /** An optional string field followed by its comma, or nothing at all. */
  function ParseStringField(name: string, s: string): Option<(Option<string>, string)> {
    if name <= s then
      var (v, rest) :- ParseString(s[|name|..]);
      var rest' :- Expect(",", rest);
      Some((Some(v), rest'))
    else Some((None, s))
  }

  lemma StringFieldRoundTrip(name: string, v: Option<string>, rest: string)
    requires !(name <= rest)
    ensures ParseStringField(name, StringField(name, v) + rest) == Some((v, rest))
  {
    if v.Some? {
      var s := StringField(name, v) + rest;
      assert s == name + (Quote(v.value) + ("," + rest));
      ExpectPrefix(name, Quote(v.value) + ("," + rest));
      ParseQuoted(v.value, "," + rest);
      ExpectPrefix(",", rest);
    } else {
      assert StringField(name, v) + rest == rest;
    }
  }

  lemma ParsedStringField(name: string, s: string, v: Option<string>, rest: string)
    requires ParseStringField(name, s) == Some((v, rest))
    ensures s == StringField(name, v) + rest
  {
    if name <= s {
      var s1 := s[|name|..];
      var (x, r) := ParseString(s1).value;
      assert v == Some(x) && Expect(",", r) == Some(rest);
      ParsedQuoted(s1, x, r);
      assert s == name + s1;
      assert s == name + (Quote(x) + ("," + rest));
      RegroupFour(name, Quote(x), ",", rest);
      assert StringField(name, v) == name + Quote(x) + ",";
    } else {
      assert StringField(name, v) + rest == rest;
    }
  }

  const TitleName: string := "\"title\":"
  const ContentName: string := "\"content\":"
  const AuthorName: string := "\"author\":"
  const UnlistedName: string := "\"unlisted\":"
  const ExpName: string := ",\"exp\":"

  function ExpField(e: Option<Instant>): string {
    match e
    case None => []
    case Some(t) => ExpName + IntText(t)
  }

  function ParseExpField(s: string): Option<(Option<Instant>, string)> {
    if ExpName <= s then
      var (t, rest) :- ParseInt(s[|ExpName|..]);
      if MinInstant <= t <= MaxInstant then Some((Some(t as Instant), rest)) else None
    else Some((None, s))
  }

  lemma ParsedExpField(s: string, e: Option<Instant>, rest: string)
    requires ParseExpField(s) == Some((e, rest))
    ensures s == ExpField(e) + rest
  {
    if ExpName <= s {
      var body := s[|ExpName|..];
      var (t, r) := ParseInt(body).value;
      assert e == Some(t as Instant) && rest == r;
      ParsedInt(body, t, r);
      assert ExpField(e) == ExpName + IntText(t);
      assert s == ExpName + body;
    } else {
      assert ExpField(e) + rest == rest;
    }
  }

  // ----------------------------------------------------------------- records

  /** The unlisted flag, the optional `exp` field and the closing brace. */
  function Closing(p: StoredPaste): string {
    UnlistedName + (BoolText(p.unlisted) + (ExpField(p.exp) + "}"))
  }

  /** The part of the text after the optional title field. */
  function EncodeFromContent(p: StoredPaste): string {
    ContentName + (Quote(p.content) + ("," + (StringField(AuthorName, p.author) + Closing(p))))
  }

  lemma EndsWithPrepend(a: string, b: string, x: string)
    requires EndsWith(b, x)
    ensures EndsWith(a + b, x)
  {
    assert (a + b)[|a + b| - |x|..] == b[|b| - |x|..];
  }

  lemma PrefixOfConcat(a: string, b: string)
    ensures a <= a + b
  {
    assert (a + b)[..|a|] == a;
  }

  lemma RegroupFour(a: string, b: string, c: string, d: string)
    ensures a + (b + (c + d)) == (a + b + c) + d
  {
  }

  lemma RegroupSeven(a: string, b: string, c: string, d: string, e: string, f: string, g: string)
    ensures a + (b + (c + (d + (e + (f + g))))) == (a + b) + c + (d + e) + f + g
  {
  }

  lemma ContentLayout(p: StoredPaste)
    ensures var c := EncodeFromContent(p);
      && ContentName + Quote(p.content) + "," <= c
      && EndsWith(c, Closing(p))
      && c[1] == 'c'
  {
    var c := EncodeFromContent(p);
    var q := Quote(p.content);
    var rest := StringField(AuthorName, p.author) + Closing(p);
    RegroupFour(ContentName, q, ",", rest);
    var before := ContentName + q + ",";
    assert c == before + rest;
    PrefixOfConcat(before, rest);
    EndsWithConcat(StringField(AuthorName, p.author), Closing(p));
    EndsWithPrepend(before, rest, Closing(p));
    assert c[1] == ContentName[1];
  }

  /** The end of an object text is fixed by the end of its last part. */
  lemma ObjectEnd(title: string, content: string, closing: string)
    requires EndsWith(content, closing) && |closing| > 0 && closing[|closing| - 1] == '}'
    ensures var r := "{" + (title + content);
      "{" <= r && r[|r| - 1] == '}' && EndsWith(r, closing)
  {
    EndsWithPrepend(title, content, closing);
    EndsWithPrepend("{", title + content, closing);
    PrefixOfConcat("{", title + content);
    var r := "{" + (title + content);
    assert r[|r| - 1] == r[|r| - |closing|..][|closing| - 1];
  }

  lemma BraceFieldPrefix(name: string, q: string, rest: string)
    ensures "{" + name <= "{" + ((name + q + ",") + rest)
  {
    assert ("{" + ((name + q + ",") + rest))[..|name| + 1] == "{" + name;
  }

  lemma BracePrefix(a: string, b: string, c: string, s: string)
    requires a + b + c <= s
    ensures "{" + a + b + c <= "{" + s
  {
    assert ("{" + s)[..|a + b + c| + 1] == "{" + (a + b + c);
  }

  lemma BraceDiffers(x: string, y: string)
    requires |x| >= 2 && |y| >= 2 && x[1] != y[1]
    ensures !("{" + x <= "{" + y)
  {
    assert ("{" + x)[2] == x[1];
    assert ("{" + y)[2] == y[1];
  }

  lemma TitledStart(p: StoredPaste)
    requires p.title.Some?
    ensures "{" + TitleName <= "{" + (StringField(TitleName, p.title) + EncodeFromContent(p))
  {
    BraceFieldPrefix(TitleName, Quote(p.title.value), EncodeFromContent(p));
  }

  lemma UntitledStart(p: StoredPaste)
    requires p.title.None?
    ensures var r := "{" + (StringField(TitleName, p.title) + EncodeFromContent(p));
      && !("{" + TitleName <= r)
      && "{" + ContentName + Quote(p.content) + "," <= r
  {
    var content := EncodeFromContent(p);
    assert StringField(TitleName, p.title) + content == content;
    ContentLayout(p);
    BracePrefix(ContentName, Quote(p.content), ",", content);
    assert TitleName[1] == 't';
    BraceDiffers(TitleName, content);
  }

  /** The start of an object text tells whether it has a title. */
  lemma ObjectStart(p: StoredPaste)
    ensures var r := "{" + (StringField(TitleName, p.title) + EncodeFromContent(p));
      && (p.title.Some? <==> "{" + TitleName <= r)
      && (p.title.None? ==> "{" + ContentName + Quote(p.content) + "," <= r)
  {
    if p.title.Some? {
      TitledStart(p);
    } else {
      UntitledStart(p);
    }
  }

  /** Where the fields of a record sit in its text. */
  lemma EncodeLayout(p: StoredPaste)
    ensures var r := "{" + (StringField(TitleName, p.title) + EncodeFromContent(p));
      && "{" <= r && r[|r| - 1] == '}'
      && (p.title.Some? <==> "{" + TitleName <= r)
      && (p.title.None? ==> "{" + ContentName + Quote(p.content) + "," <= r)
      && EndsWith(r, UnlistedName + BoolText(p.unlisted) + ExpField(p.exp) + "}")
  {
    ContentLayout(p);
    var closing := Closing(p);
    RegroupFour(UnlistedName, BoolText(p.unlisted), ExpField(p.exp), "}");
    ObjectEnd(StringField(TitleName, p.title), EncodeFromContent(p), closing);
    ObjectStart(p);
  }

  /** `serde_json::to_string(&stored)`:
      `{` [title `,`] content `,` [author `,`] unlisted [`,` exp] `}`. */
  function Encode(p: StoredPaste): (r: string)
    ensures "{" <= r && r[|r| - 1] == '}'
    ensures p.title.Some? <==> "{" + TitleName <= r
    ensures p.title.None? ==> "{" + ContentName + Quote(p.content) + "," <= r
    ensures EndsWith(r, UnlistedName + BoolText(p.unlisted) + ExpField(p.exp) + "}")
  {
    EncodeLayout(p);
    "{" + (StringField(TitleName, p.title) + EncodeFromContent(p))
  }

  /** The optional `exp` field, the closing brace and the end of the text. */
  function DecodeExpAndEnd(s: string): Option<Option<Instant>> {
    var (exp, s1) :- ParseExpField(s);
    var s2 :- Expect("}", s1);
    if s2 == [] then Some(exp) else None
  }

  function DecodeUnlistedAndExp(s: string): Option<(bool, Option<Instant>)> {
    var s1 :- Expect(UnlistedName, s);
    var (unlisted, s2) :- ParseBool(s1);
    var exp :- DecodeExpAndEnd(s2);
    Some((unlisted, exp))
  }

  /** Everything after the optional title: content, author, unlisted, exp. */
  function DecodeFromContent(s: string): Option<(string, Option<string>, bool, Option<Instant>)> {
    var s1 :- Expect(ContentName, s);
    var (content, s2) :- ParseString(s1);
    var s3 :- Expect(",", s2);
    var (author, s4) :- ParseStringField(AuthorName, s3);
    var (unlisted, exp) :- DecodeUnlistedAndExp(s4);
    Some((content, author, unlisted, exp))
  }

  function DecodeObject(s: string): Option<StoredPaste> {
    var s1 :- Expect("{", s);
    var (title, s2) :- ParseStringField(TitleName, s1);
    var (content, author, unlisted, exp) :- DecodeFromContent(s2);
    Some(StoredPaste(title, content, author, unlisted, exp))
  }

  lemma ExpAndEndRoundTrip(e: Option<Instant>)
    ensures DecodeExpAndEnd(ExpField(e) + "}") == Some(e)
  {
    ExpectPrefix("}", []);
    assert "}" + [] == "}";
    if e.Some? {
      assert ExpField(e) + "}" == ExpName + (IntText(e.value) + "}");
      ExpectPrefix(ExpName, IntText(e.value) + "}");
      ParseIntText(e.value, "}");
    } else {
      assert ExpField(e) + "}" == "}";
    }
  }

  lemma ParsedExpAndEnd(s: string, e: Option<Instant>)
    requires DecodeExpAndEnd(s) == Some(e)
    ensures s == ExpField(e) + "}"
  {
    var (exp, s1) := ParseExpField(s).value;
    ParsedExpField(s, exp, s1);
    assert s1 == "}" + [];
  }

  lemma UnlistedAndExpRoundTrip(b: bool, e: Option<Instant>)
    ensures DecodeUnlistedAndExp(UnlistedName + (BoolText(b) + (ExpField(e) + "}"))) == Some((b, e))
  {
    var tail := ExpField(e) + "}";
    ExpectPrefix(UnlistedName, BoolText(b) + tail);
    ParseBoolText(b, tail);
    ExpAndEndRoundTrip(e);
  }

  lemma ParsedUnlistedAndExp(s: string, b: bool, e: Option<Instant>)
    requires DecodeUnlistedAndExp(s) == Some((b, e))
    ensures s == UnlistedName + (BoolText(b) + (ExpField(e) + "}"))
  {
    var s1 := Expect(UnlistedName, s).value;
    var (unlisted, s2) := ParseBool(s1).value;
    ParsedBool(s1, unlisted, s2);
    ParsedExpAndEnd(s2, e);
  }

  lemma FromContentRoundTrip(p: StoredPaste)
    ensures DecodeFromContent(EncodeFromContent(p)) == Some((p.content, p.author, p.unlisted, p.exp))
  {
    var unlisted := Closing(p);
    var author := StringField(AuthorName, p.author) + unlisted;
    ExpectPrefix(ContentName, Quote(p.content) + ("," + author));
    ParseQuoted(p.content, "," + author);
    ExpectPrefix(",", author);
    assert !(AuthorName <= unlisted) by { assert unlisted[1] == 'u'; }
    StringFieldRoundTrip(AuthorName, p.author, unlisted);
    UnlistedAndExpRoundTrip(p.unlisted, p.exp);
  }

  lemma ParsedFromContent(s: string, p: StoredPaste)
    requires DecodeFromContent(s) == Some((p.content, p.author, p.unlisted, p.exp))
    ensures s == EncodeFromContent(p)
  {
    var s1 := Expect(ContentName, s).value;
    var (content, s2) := ParseString(s1).value;
    var s3 := Expect(",", s2).value;
    var (author, s4) := ParseStringField(AuthorName, s3).value;
    var (unlisted, exp) := DecodeUnlistedAndExp(s4).value;
    assert content == p.content && author == p.author;
    assert unlisted == p.unlisted && exp == p.exp;
    ParsedQuoted(s1, content, s2);
    ParsedStringField(AuthorName, s3, author, s4);
    ParsedUnlistedAndExp(s4, p.unlisted, p.exp);
    assert s4 == Closing(p);
    assert s == ContentName + (Quote(p.content) + ("," + (StringField(AuthorName, p.author) + s4)));
  }

  /** Text the decoder accepts is exactly the encoding of what it decodes to. */
  lemma DecodedIsEncoding(s: string)
    requires DecodeObject(s).Some?
    ensures "{" + (StringField(TitleName, DecodeObject(s).value.title)
                   + EncodeFromContent(DecodeObject(s).value)) == s
  {
    var p := DecodeObject(s).value;
    var s1 := Expect("{", s).value;
    var (title, s2) := ParseStringField(TitleName, s1).value;
    ParsedStringField(TitleName, s1, title, s2);
    ParsedFromContent(s2, p);
  }

  /** `serde_json::from_str::<StoredPaste>`, accepting only the text
      `Encode` writes: a successful decode re-encodes to its input. */
  function Decode(s: string): (r: Result<StoredPaste, JsonError>)
    ensures r.Ok? ==> Encode(r.value) == s
  {
    match DecodeObject(s)
    case Some(p) => DecodedIsEncoding(s); Ok(p)
    case None => Err(Malformed)
  }

  /** Decoding the stored text gives back the record, optional fields included. */
  lemma DecodeEncode(p: StoredPaste)
    ensures Decode(Encode(p)) == Ok(p)
  {
    var content := EncodeFromContent(p);
    assert Encode(p) == "{" + (StringField(TitleName, p.title) + content);
    ExpectPrefix("{", StringField(TitleName, p.title) + content);
    assert !(TitleName <= content) by { assert content[1] == 'c'; }
    StringFieldRoundTrip(TitleName, p.title, content);
    FromContentRoundTrip(p);
  }

  /** Decoding succeeds on a text if and only if it is the encoding of some
      record, namely the one it decodes to. */
  lemma DecodeAcceptsExactlyEncodings(s: string, p: StoredPaste)
    ensures Decode(s) == Ok(p) <==> s == Encode(p)
  {
    if s == Encode(p) {
      DecodeEncode(p);
    }
  }

  lemma OmittedFields(p: StoredPaste)
    requires p.title.None? && p.author.None? && p.exp.None?
    ensures Encode(p) == "{" + (ContentName + (Quote(p.content) + ("," + (UnlistedName + (BoolText(p.unlisted) + "}")))))
  {
    assert ExpField(p.exp) + "}" == "}";
    assert Closing(p) == UnlistedName + (BoolText(p.unlisted) + "}");
    assert StringField(AuthorName, p.author) + Closing(p) == Closing(p);
    assert StringField(TitleName, p.title) + EncodeFromContent(p) == EncodeFromContent(p);
  }

  lemma BraceContent()
    ensures "{" + ContentName == "{\"content\":"
  {
  }

  lemma CommaUnlisted()
    ensures "," + UnlistedName == ",\"unlisted\":"
  {
  }

  /** Absent optional fields are left out of the text, not written as `null`. */
  lemma EncodeOmitsAbsent(p: StoredPaste)
    requires p.title.None? && p.author.None? && p.exp.None?
    ensures Encode(p) == "{\"content\":" + Quote(p.content) + ",\"unlisted\":" + BoolText(p.unlisted) + "}"
  {
    OmittedFields(p);
    RegroupSeven("{", ContentName, Quote(p.content), ",", UnlistedName, BoolText(p.unlisted), "}");
    BraceContent();
    CommaUnlisted();
  }
}
