/**
  Python's `json.dumps(value, separators=(',', ':'))` for the values the
  deeplink payload is made of (strings, booleans and objects whose members
  keep insertion order), with the default `ensure_ascii=True` escaping; and a
  parser for the text it produces (RFC 8259, without insignificant whitespace).
 */
module Json {

  import opened Wrappers

  datatype Json = JBool(b: bool) | JString(s: string) | JObject(members: seq<Member>)

  datatype Member = Member(key: string, value: Json)

  /** Every character between ' ' and '~'. */
  predicate IsPrintable(c: char) {
    ' ' <= c <= '~'
  }

  predicate AllPrintable(s: string) {
    forall i :: 0 <= i < |s| ==> IsPrintable(s[i])
  }

  /** A lower-case hexadecimal digit, as Python writes them. */
  function HexDigit(d: int): (c: char)
    requires 0 <= d < 16
    ensures IsPrintable(c)
  {
    if d < 10 then ('0' as int + d) as char else ('a' as int + (d - 10)) as char
  }

  /** Four hexadecimal digits of a 16-bit value. */
  function Hex4(n: int): (r: string)
    requires 0 <= n < 0x10000
    ensures |r| == 4
  {
    [HexDigit(n / 16 / 16 / 16), HexDigit(n / 16 / 16 % 16), HexDigit(n / 16 % 16), HexDigit(n % 16)]
  }

  /** `\uXXXX` */
  function UEscape(n: int): (r: string)
    requires 0 <= n < 0x10000
    ensures |r| == 6
  {
    "\\u" + Hex4(n)
  }

  /** How `ensure_ascii` writes one character inside a string literal: the
      quote and the backslash, and the five controls with a short form, as
      two-character escapes; other characters outside ' '..'~' as `\uXXXX`,
      and those beyond the Basic Multilingual Plane as a surrogate pair. */
  function EscapeChar(c: char): (r: string)
    ensures 1 <= |r|
  {
    var n := c as int;
    if c == '"' then "\\\""
    else if c == '\\' then "\\\\"
    else if c == '\n' then "\\n"
    else if c == '\r' then "\\r"
    else if c == '\t' then "\\t"
    else if n == 0x08 then "\\b"
    else if n == 0x0C then "\\f"
    else if IsPrintable(c) then [c]
    else if n < 0x10000 then UEscape(n)
    else
      var m := n - 0x10000;
      UEscape(0xD800 + m / 1024) + UEscape(0xDC00 + m % 1024)
  }

  function EscapeString(s: string): (r: string)
  {
    if s == [] then [] else EscapeChar(s[0]) + EscapeString(s[1..])
  }

  /** A string literal. */
  function Quote(s: string): (r: string)
  {
    "\"" + EscapeString(s) + "\""
  }

  /** The compact text of a value: no whitespace around ',' and ':'. */
  function Serialize(v: Json): (r: string)
    decreases v
  {
    match v
    case JBool(b) => if b then "true" else "false"
    case JString(s) => Quote(s)
    case JObject(ms) => "{" + SerializeMembers(ms) + "}"
  }

  /** One member: its key, ':' and its value. */
  function SerializeMember(m: Member): string
    decreases m, 1
  {
    Quote(m.key) + ":" + Serialize(m.value)
  }

  /** The members of an object, separated by ','. */
  function SerializeMembers(ms: seq<Member>): (r: string)
    decreases ms
  {
    if ms == [] then []
    else if |ms| == 1 then SerializeMember(ms[0])
    else SerializeMember(ms[0]) + ("," + SerializeMembers(ms[1..]))
  }

  /** The value of a hexadecimal digit of either case. */
  function HexValue(c: char): Option<int>
  {
    if '0' <= c <= '9' then Some(c as int - '0' as int)
    else if 'a' <= c <= 'f' then Some(c as int - 'a' as int + 10)
    else if 'A' <= c <= 'F' then Some(c as int - 'A' as int + 10)
    else None
  }

  /** The value of the four hexadecimal digits at the front of `s`. */
  function ParseHex4(s: string): (r: Option<int>)
    ensures r.Some? ==> |s| >= 4 && 0 <= r.value < 0x10000
  {
    if |s| < 4 then None
    else match (HexValue(s[0]), HexValue(s[1]), HexValue(s[2]), HexValue(s[3]))
      case (Some(d0), Some(d1), Some(d2), Some(d3)) =>
        assert 0 <= d0 < 16 && 0 <= d1 < 16 && 0 <= d2 < 16 && 0 <= d3 < 16;
        Some(((d0 * 16 + d1) * 16 + d2) * 16 + d3)
      case _ => None
  }

  predicate IsHighSurrogate(n: int) {
    0xD800 <= n < 0xDC00
  }

  predicate IsLowSurrogate(n: int) {
    0xDC00 <= n < 0xE000
  }

  /** Reads the escape sequence at the front of `s` (which starts with a
      backslash): the character it stands for and how many characters it took. */
  function ParseEscape(s: string): (r: Option<(char, nat)>)
    requires |s| > 0 && s[0] == '\\'
    ensures r.Some? ==> 2 <= r.value.1 <= |s|
  {
    if |s| < 2 then None
    else if s[1] == '"' then Some(('"', 2))
    else if s[1] == '\\' then Some(('\\', 2))
    else if s[1] == '/' then Some(('/', 2))
    else if s[1] == 'b' then Some(('\U{8}', 2))
    else if s[1] == 'f' then Some(('\U{C}', 2))
    else if s[1] == 'n' then Some(('\n', 2))
    else if s[1] == 'r' then Some(('\r', 2))
    else if s[1] == 't' then Some(('\t', 2))
    else if s[1] == 'u' then
      match ParseHex4(s[2..])
      case None => None
      case Some(hi) =>
        if IsHighSurrogate(hi) then
          if |s| >= 8 && s[6] == '\\' && s[7] == 'u' then
            match ParseHex4(s[8..])
            case Some(lo) =>
              if IsLowSurrogate(lo) then
                Some(((0x10000 + (hi - 0xD800) * 1024 + (lo - 0xDC00)) as char, 12))
              else None
            case None => None
          else None
        else if IsLowSurrogate(hi) then None
        else Some((hi as char, 6))
    else None
  }

  /** Reads the rest of a string literal whose opening quote is already
      consumed: its contents and the text after the closing quote. */
  function ParseStringBody(s: string): (r: Option<(string, string)>)
    ensures r.Some? ==> |r.value.1| < |s|
    decreases |s|
  {
    if s == [] then None
    else if s[0] == '"' then Some(([], s[1..]))
    else if s[0] == '\\' then
      match ParseEscape(s)
      case None => None
      case Some((c, k)) =>
        match ParseStringBody(s[k..])
        case None => None
        case Some((t, rest)) => Some(([c] + t, rest))
    else if s[0] < ' ' then None
    else
      match ParseStringBody(s[1..])
      case None => None
      case Some((t, rest)) => Some(([s[0]] + t, rest))
  }

  /** Puts a decoded character in front of the rest of the parsed contents. */
  function Prepend(c: char, r: Option<(string, string)>): Option<(string, string)> {
    match r
    case None => None
    case Some((t, rest)) => Some(([c] + t, rest))
  }

  lemma DivMod16(n: int, q: int, r: int)
    requires n == q * 16 + r && 0 <= r < 16
    ensures n / 16 == q && n % 16 == r
  {
  }

  lemma DivMod1024(n: int, q: int, r: int)
    requires n == q * 1024 + r && 0 <= r < 1024
    ensures n / 1024 == q && n % 1024 == r
  {
  }

  lemma HexDigitRoundTrip(d: int)
    requires 0 <= d < 16
    ensures HexValue(HexDigit(d)) == Some(d)
  {
  }

  /** Four hexadecimal digits read back as the value they were written from. */
  lemma Hex4RoundTrip(n: int, t: string)
    requires 0 <= n < 0x10000
    ensures ParseHex4(Hex4(n) + t) == Some(n)
  {
    var q1, q2, q3 := n / 16, n / 16 / 16, n / 16 / 16 / 16;
    HexDigitRoundTrip(q3); HexDigitRoundTrip(q2 % 16); HexDigitRoundTrip(q1 % 16); HexDigitRoundTrip(n % 16);
    assert n == q1 * 16 + n % 16 && q1 == q2 * 16 + q1 % 16 && q2 == q3 * 16 + q2 % 16;
    var s := Hex4(n) + t;
    assert s[0] == HexDigit(q3) && s[1] == HexDigit(q2 % 16) && s[2] == HexDigit(q1 % 16) && s[3] == HexDigit(n % 16);
  }

  /** One escaped character is read back as that character. */
  lemma EscapeCharRoundTrip(c: char, t: string)
    ensures ParseStringBody(EscapeChar(c) + t) == Prepend(c, ParseStringBody(t))
  {
    var n := c as int;
    if c == '"' || c == '\\' || c == '\n' || c == '\r' || c == '\t' || n == 0x08 || n == 0x0C {
      var s := EscapeChar(c) + t;
      assert s[2..] == t;
    } else if IsPrintable(c) {
      var s := EscapeChar(c) + t;
      assert s[1..] == t;
    } else if n < 0x10000 {
      BmpRoundTrip(c, t);
    } else {
      AstralRoundTrip(c, t);
    }
  }

  lemma BmpRoundTrip(c: char, t: string)
    requires c as int < 0x10000 && !IsPrintable(c)
    requires c != '\n' && c != '\r' && c != '\t' && c as int != 0x08 && c as int != 0x0C
    ensures ParseStringBody(UEscape(c as int) + t) == Prepend(c, ParseStringBody(t))
  {
    var n := c as int;
    var s := UEscape(n) + t;
    assert s[2..] == Hex4(n) + t;
    Hex4RoundTrip(n, t);
    assert ParseEscape(s) == Some((c, 6));
    assert s[6..] == t;
  }

  lemma AstralRoundTrip(c: char, t: string)
    requires c as int >= 0x10000
    ensures ParseStringBody(EscapeChar(c) + t) == Prepend(c, ParseStringBody(t))
  {
    var n := c as int;
    var m := n - 0x10000;
    DivMod1024(m, m / 1024, m % 1024);
    var hi, lo := 0xD800 + m / 1024, 0xDC00 + m % 1024;
    assert EscapeChar(c) == UEscape(hi) + UEscape(lo);
    PairRoundTrip(hi, lo, t);
  }

  lemma PairRoundTrip(hi: int, lo: int, t: string)
    requires IsHighSurrogate(hi) && IsLowSurrogate(lo)
    ensures ParseStringBody(UEscape(hi) + UEscape(lo) + t)
            == Prepend((0x10000 + (hi - 0xD800) * 1024 + (lo - 0xDC00)) as char, ParseStringBody(t))
  {
    var s := UEscape(hi) + UEscape(lo) + t;
    assert s[2..] == Hex4(hi) + (UEscape(lo) + t);
    Hex4RoundTrip(hi, UEscape(lo) + t);
    assert s[8..] == Hex4(lo) + t;
    Hex4RoundTrip(lo, t);
    SurrogatePair(s, hi, lo);
    assert s[12..] == t;
  }

  lemma SurrogatePair(s: string, hi: int, lo: int)
    requires |s| >= 12 && s[0] == '\\' && s[1] == 'u' && s[6] == '\\' && s[7] == 'u'
    requires ParseHex4(s[2..]) == Some(hi) && IsHighSurrogate(hi)
    requires ParseHex4(s[8..]) == Some(lo) && IsLowSurrogate(lo)
    ensures ParseEscape(s) == Some(((0x10000 + (hi - 0xD800) * 1024 + (lo - 0xDC00)) as char, 12))
  {
  }

  /** The contents of a string literal are read back, followed by what came
      after its closing quote. */
  lemma {:induction false} EscapeStringRoundTrip(s: string, rest: string)
    ensures ParseStringBody(EscapeString(s) + "\"" + rest) == Some((s, rest))
  {
    if s == [] {
      assert EscapeString(s) + "\"" + rest == "\"" + rest;
    } else {
      var tail := EscapeString(s[1..]) + "\"" + rest;
      assert EscapeString(s) + "\"" + rest == EscapeChar(s[0]) + tail;
      EscapeCharRoundTrip(s[0], tail);
      EscapeStringRoundTrip(s[1..], rest);
      assert [s[0]] + s[1..] == s;
    }
  }

  /** Reads one value at the front of `s`; gives it and the text after it. */
  function ParseValue(s: string): (r: Option<(Json, string)>)
    ensures r.Some? ==> |r.value.1| < |s|
    decreases |s|, 1
  {
    if |s| >= 4 && s[0] == 't' && s[1] == 'r' && s[2] == 'u' && s[3] == 'e' then
      Some((JBool(true), s[4..]))
    else if |s| >= 5 && s[0] == 'f' && s[1] == 'a' && s[2] == 'l' && s[3] == 's' && s[4] == 'e' then
      Some((JBool(false), s[5..]))
    else if |s| > 0 && s[0] == '"' then
      match ParseStringBody(s[1..])
      case None => None
      case Some((t, rest)) => Some((JString(t), rest))
    else if |s| > 1 && s[0] == '{' && s[1] == '}' then Some((JObject([]), s[2..]))
    else if |s| > 0 && s[0] == '{' then
      match ParseMembers(s[1..])
      case None => None
      case Some((ms, rest)) => Some((JObject(ms), rest))
    else None
  }

  /** Reads `"key":value` pairs separated by ',' up to and including the '}'
      that closes the object. */
  function ParseMembers(s: string): (r: Option<(seq<Member>, string)>)
    ensures r.Some? ==> |r.value.1| < |s|
    decreases |s|, 0
  {
    if |s| == 0 || s[0] != '"' then None
    else
      match ParseStringBody(s[1..])
      case None => None
      case Some((key, t)) =>
        if |t| == 0 || t[0] != ':' then None
        else
          match ParseValue(t[1..])
          case None => None
          case Some((v, u)) =>
            if |u| > 0 && u[0] == '}' then Some(([Member(key, v)], u[1..]))
            else if |u| > 0 && u[0] == ',' then
              match ParseMembers(u[1..])
              case None => None
              case Some((more, w)) => Some(([Member(key, v)] + more, w))
            else None
  }

  /** A whole text that is one value. */
  function Parse(s: string): Option<Json> {
    match ParseValue(s)
    case Some((v, rest)) => if rest == [] then Some(v) else None
    case None => None
  }

  lemma QuoteRoundTrip(s: string, rest: string)
    ensures ParseStringBody((Quote(s) + rest)[1..]) == Some((s, rest))
  {
    assert (Quote(s) + rest)[1..] == EscapeString(s) + "\"" + rest;
    EscapeStringRoundTrip(s, rest);
  }

  lemma ParseValueQuote(s: string)
    requires |s| > 0 && s[0] == '"'
    ensures ParseValue(s) == match ParseStringBody(s[1..])
                             case None => None
                             case Some((t, rest)) => Some((JString(t), rest))
  {
  }

  lemma ParseValueObject(s: string, ms: seq<Member>, rest: string)
    requires |s| > 1 && s[0] == '{' && s[1] == '"' && ParseMembers(s[1..]) == Some((ms, rest))
    ensures ParseValue(s) == Some((JObject(ms), rest))
  {
  }

  /** A serialised value is read back, followed by whatever came after it. */
  lemma {:induction false} ValueRoundTrip(v: Json, rest: string)
    ensures ParseValue(Serialize(v) + rest) == Some((v, rest))
    decreases v
  {
    match v
    case JBool(b) =>
      var s := Serialize(v) + rest;
      if b { assert s[..4] == "true" && s[4..] == rest; }
      else { assert s[..5] == "false" && s[5..] == rest; }
    case JString(t) =>
      ParseValueQuote(Quote(t) + rest);
      QuoteRoundTrip(t, rest);
    case JObject(ms) =>
      if ms == [] {
        var s := Serialize(v) + rest;
        assert SerializeMembers(ms) == [];
        assert s == "{}" + rest;
        assert s[2..] == rest;
      } else {
        ObjectRoundTrip(ms, rest);
      }
  }

  lemma {:induction false} ObjectRoundTrip(ms: seq<Member>, rest: string)
    requires ms != []
    ensures ParseValue(Serialize(JObject(ms)) + rest) == Some((JObject(ms), rest))
    decreases JObject(ms), 0
  {
    var body := SerializeMembers(ms) + "}" + rest;
    ObjectText(ms, rest);
    MembersStart(ms);
    MembersRoundTrip(ms, rest);
    ObjectParse(Serialize(JObject(ms)) + rest, body, ms, rest);
  }

  lemma ObjectText(ms: seq<Member>, rest: string)
    ensures Serialize(JObject(ms)) + rest == "{" + (SerializeMembers(ms) + "}" + rest)
  {
    assert Serialize(JObject(ms)) == "{" + SerializeMembers(ms) + "}";
  }

  /** '{' in front of members that parse is an object. */
  lemma ObjectParse(s: string, body: string, ms: seq<Member>, rest: string)
    requires s == "{" + body && |body| > 0 && body[0] == '"' && ParseMembers(body) == Some((ms, rest))
    ensures ParseValue(s) == Some((JObject(ms), rest))
  {
    assert s[1..] == body;
    ParseValueObject(s, ms, rest);
  }

  /** Serialised members start with the quote that opens the first key. */
  lemma MembersStart(ms: seq<Member>)
    requires ms != []
    ensures |SerializeMembers(ms)| > 0 && SerializeMembers(ms)[0] == '"'
  {
    var m := SerializeMember(ms[0]);
    assert m == Quote(ms[0].key) + ":" + Serialize(ms[0].value);
    assert m[0] == '"';
    if |ms| > 1 {
      assert SerializeMembers(ms) == m + ("," + SerializeMembers(ms[1..]));
    }
  }

  lemma ParseMembersStep(s: string, key: string, t: string, v: Json, u: string)
    requires |s| > 0 && s[0] == '"' && ParseStringBody(s[1..]) == Some((key, t))
    requires |t| > 0 && t[0] == ':' && ParseValue(t[1..]) == Some((v, u))
    ensures ParseMembers(s) == if |u| > 0 && u[0] == '}' then Some(([Member(key, v)], u[1..]))
                               else if |u| > 0 && u[0] == ',' then
                                 match ParseMembers(u[1..])
                                 case None => None
                                 case Some((more, w)) => Some(([Member(key, v)] + more, w))
                               else None
  {
  }

  lemma Assoc(a: string, b: string, c: string)
    ensures (a + b) + c == a + (b + c)
  {
  }

  /** Serialised members and the closing brace are read back. */
  lemma {:induction false} MembersRoundTrip(ms: seq<Member>, rest: string)
    requires ms != []
    ensures ParseMembers(SerializeMembers(ms) + "}" + rest) == Some((ms, rest))
    decreases ms
  {
    var m := ms[0];
    if |ms| == 1 {
      var after := "}" + rest;
      MemberRoundTrip(m, after);
      Assoc(SerializeMember(m), "}", rest);
      assert [m] == ms;
    } else {
      var t := SerializeMembers(ms[1..]);
      var tail := t + "}" + rest;
      var after := "," + tail;
      MemberRoundTrip(m, after);
      Assoc(SerializeMember(m), "," + t, "}");
      Assoc(SerializeMember(m), "," + t + "}", rest);
      Assoc(",", t, "}");
      Assoc("," + (t + "}"), "", rest);
      Assoc(",", t + "}", rest);
      Assoc(t, "}", rest);
      assert SerializeMembers(ms) + "}" + rest == SerializeMember(m) + after;
      assert after[1..] == tail;
      MembersRoundTrip(ms[1..], rest);
      assert [m] + ms[1..] == ms;
    }
  }

  /** One member is read back, up to the separator that follows it. */
  lemma {:induction false} MemberRoundTrip(m: Member, after: string)
    requires |after| > 0
    ensures ParseMembers(SerializeMember(m) + after)
            == if after[0] == '}' then Some(([m], after[1..]))
               else if after[0] == ',' then
                 match ParseMembers(after[1..])
                 case None => None
                 case Some((more, w)) => Some(([m] + more, w))
               else None
    decreases m, 2
  {
    var t := ":" + Serialize(m.value) + after;
    var s := Quote(m.key) + t;
    assert SerializeMember(m) + after == s;
    QuoteRoundTrip(m.key, t);
    assert t[1..] == Serialize(m.value) + after;
    ValueRoundTrip(m.value, after);
    ParseMembersStep(s, m.key, t, m.value, after);
  }

  /** Parsing the serialised text gives the value back. */
  lemma ParseSerialize(v: Json)
    ensures Parse(Serialize(v)) == Some(v)
  {
    ValueRoundTrip(v, []);
    assert Serialize(v) + [] == Serialize(v);
  }

  lemma AllPrintableConcat(a: string, b: string)
    requires AllPrintable(a) && AllPrintable(b)
    ensures AllPrintable(a + b)
  {
    assert forall i :: |a| <= i < |a + b| ==> (a + b)[i] == b[i - |a|];
  }

  lemma UEscapePrintable(n: int)
    requires 0 <= n < 0x10000
    ensures AllPrintable(UEscape(n))
  {
    var r := UEscape(n);
    assert r == ['\\', 'u'] + Hex4(n);
  }

  /** An escaped character is printable ASCII. */
  lemma EscapeCharPrintable(c: char)
    ensures AllPrintable(EscapeChar(c))
  {
    var n := c as int;
    if c == '"' || c == '\\' || c == '\n' || c == '\r' || c == '\t' || n == 0x08 || n == 0x0C || IsPrintable(c) {
      PlainPrintable(c);
    } else if n < 0x10000 {
      UEscapePrintable(n);
    } else {
      AstralPrintable(c);
    }
  }

  lemma PlainPrintable(c: char)
    requires c == '"' || c == '\\' || c == '\n' || c == '\r' || c == '\t'
             || c as int == 0x08 || c as int == 0x0C || IsPrintable(c)
    ensures AllPrintable(EscapeChar(c))
  {
  }

  lemma AstralPrintable(c: char)
    requires c as int >= 0x10000
    ensures AllPrintable(EscapeChar(c))
  {
    var m := c as int - 0x10000;
    UEscapePrintable(0xD800 + m / 1024);
    UEscapePrintable(0xDC00 + m % 1024);
    AllPrintableConcat(UEscape(0xD800 + m / 1024), UEscape(0xDC00 + m % 1024));
  }

  lemma {:induction false} EscapeStringPrintable(s: string)
    ensures AllPrintable(EscapeString(s))
  {
    if s != [] {
      EscapeStringPrintable(s[1..]);
      EscapeCharPrintable(s[0]);
      AllPrintableConcat(EscapeChar(s[0]), EscapeString(s[1..]));
    }
  }

  lemma QuotePrintable(s: string)
    ensures AllPrintable(Quote(s))
  {
    EscapeStringPrintable(s);
    AllPrintableConcat("\"", EscapeString(s));
    AllPrintableConcat("\"" + EscapeString(s), "\"");
  }

  /** `ensure_ascii` output: every character of the text is printable ASCII,
      so its UTF-8 bytes are its character codes. */
  lemma {:induction false} SerializePrintable(v: Json)
    ensures AllPrintable(Serialize(v))
    decreases v
  {
    match v
    case JBool(b) =>
    case JString(t) => QuotePrintable(t);
    case JObject(ms) =>
      MembersPrintable(ms);
      AllPrintableConcat("{", SerializeMembers(ms));
      AllPrintableConcat("{" + SerializeMembers(ms), "}");
  }

  lemma {:induction false} MembersPrintable(ms: seq<Member>)
    ensures AllPrintable(SerializeMembers(ms))
    decreases ms
  {
    if ms != [] {
      var m := ms[0];
      QuotePrintable(m.key);
      SerializePrintable(m.value);
      AllPrintableConcat(Quote(m.key), ":");
      AllPrintableConcat(Quote(m.key) + ":", Serialize(m.value));
      if |ms| > 1 {
        MembersPrintable(ms[1..]);
        AllPrintableConcat(",", SerializeMembers(ms[1..]));
        AllPrintableConcat(SerializeMember(m), "," + SerializeMembers(ms[1..]));
      }
    }
  }

  /** The value of the last member named `key`, as a Python dict keeps it. */
  function Lookup(ms: seq<Member>, key: string): (r: Option<Json>)
    ensures r.Some? ==> exists i :: 0 <= i < |ms| && ms[i] == Member(key, r.value)
                                    && forall j :: i < j < |ms| ==> ms[j].key != key
    ensures r.None? ==> forall i :: 0 <= i < |ms| ==> ms[i].key != key
  {
    if ms == [] then None
    else if ms[|ms| - 1].key == key then Some(ms[|ms| - 1].value)
    else
      var r := Lookup(ms[..|ms| - 1], key);
      assert forall i :: 0 <= i < |ms| - 1 ==> ms[..|ms| - 1][i] == ms[i];
      r
  }

  /** The value at `key` of an object, `None` for a missing key or a non-object. */
  function Get(v: Json, key: string): Option<Json> {
    if v.JObject? then Lookup(v.members, key) else None
  }

  /** The keys of an object's members, in order. */
  function Keys(ms: seq<Member>): (r: seq<string>)
    ensures |r| == |ms| && forall i :: 0 <= i < |ms| ==> r[i] == ms[i].key
  {
    seq(|ms|, i requires 0 <= i < |ms| => ms[i].key)
  }
}
