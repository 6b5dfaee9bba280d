/** native/UserAuditSvc/src/event_serializer.cpp: an audit event as one line of JSON. A character
    stands for one byte of the source's strings. */
module EventSerializer {
  import opened Options

  datatype AuditEvent = AuditEvent(
    id: string, ts: string, lvl: int, cat: string, act: string, sev: string, host: string,
    user: string, sid: string, sess: int, src: string, corr: string,
    data: seq<(string, string)>)  // the entries of the map, in its iteration order

  class Text {
    var chars: string

    constructor ()
      ensures chars == ""
    {
      chars := "";
    }
  }

  // Escaping -----------------------------------------------------------------------------------------

  function HexDigit(n: int): char
    requires 0 <= n < 16
  {
    "0123456789abcdef"[n]
  }

  function EscapeChar(c: char): string {
    if c == '"' then "\\\""
    else if c == '\\' then "\\\\"
    else if c == '\U{0008}' then "\\b"
    else if c == '\U{000c}' then "\\f"
    else if c == '\n' then "\\n"
    else if c == '\r' then "\\r"
    else if c == '\t' then "\\t"
    else if c < ' ' then "\\u00" + [HexDigit(c as int / 16), HexDigit(c as int % 16)]
    else [c]
  }

  function Escaped(s: string): string {
    if s == "" then "" else EscapeChar(s[0]) + Escaped(s[1..])
  }

  lemma {:induction false} EscapedLast(s: string, c: char)
    ensures Escaped(s + [c]) == Escaped(s) + EscapeChar(c)
  {
    hide EscapeChar;
    var t := s + [c];
    if s == "" {
      assert t[1..] == "" && Escaped("") == "";
    } else {
      EscapedLast(s[1..], c);
      assert t[1..] == s[1..] + [c];
    }
  }

  /** No control character: what section 7 of RFC 8259 asks of the inside of a string. */
  predicate Visible(s: string) {
    forall i :: 0 <= i < |s| ==> s[i] >= ' '
  }

  lemma {:induction false} EscapedVisible(s: string)
    ensures Visible(Escaped(s))
  {
    if s != "" {
      EscapedVisible(s[1..]);
      EscapeVisible(s[0]);
    }
  }

  lemma EscapeVisible(c: char)
    ensures Visible(EscapeChar(c))
  {
  }

  function Quoted(s: string): string {
    "\"" + Escaped(s) + "\""
  }

  /** The body of the loop over the input: one character, escaped if it has to be. */
  method AppendEscapedChar(out: Text, ch: char)
    modifies out
    ensures out.chars == old(out.chars) + EscapeChar(ch)
  {
    match ch
    case '"' => out.chars := out.chars + "\\\"";
    case '\\' => out.chars := out.chars + "\\\\";
    case '\U{0008}' => out.chars := out.chars + "\\b";
    case '\U{000c}' => out.chars := out.chars + "\\f";
    case '\n' => out.chars := out.chars + "\\n";
    case '\r' => out.chars := out.chars + "\\r";
    case '\t' => out.chars := out.chars + "\\t";
    case _ =>
      if ch < ' ' {
        out.chars := out.chars + ("\\u00" + [HexDigit(ch as int / 16), HexDigit(ch as int % 16)]);
      } else {
        out.chars := out.chars + [ch];
      }
  }

  method AppendEscaped(out: Text, input: string)
    modifies out
    ensures out.chars == old(out.chars) + Quoted(input)
  {
    hide EscapeChar;
    ghost var before := out.chars;
    out.chars := out.chars + "\"";
    for i := 0 to |input|
      invariant out.chars == before + ("\"" + Escaped(input[..i]))
    {
      EscapedLast(input[..i], input[i]);
      assert input[..i + 1] == input[..i] + [input[i]];
      AppendEscapedChar(out, input[i]);
    }
    assert input[..|input|] == input;
    out.chars := out.chars + "\"";
  }

  // Reading a string back ------------------------------------------------------------------------------

  /** The value of a hexadecimal digit */
  function DigitValue(c: char): Option<int> {
    if '0' <= c <= '9' then Some(c as int - '0' as int)
    else if 'a' <= c <= 'f' then Some(c as int - 'a' as int + 10)
    else None
  }

  /** A JSON string read up to its closing quote: the string and what follows the quote. A character is a byte,
      so a code has two zeros in front. Control characters do not occur in a string. */
  function ReadString(s: string): Option<(string, string)> {
    if s == "" then None
    else if s[0] == '"' then Some(("", s[1..]))
    else if s[0] < ' ' then None
    else if s[0] != '\\' then Prepend(s[0], ReadString(s[1..]))
    else if |s| < 2 then None
    else if s[1] == 'u' then
      if |s| < 6 || s[2] != '0' || s[3] != '0' || DigitValue(s[4]).None? || DigitValue(s[5]).None? then None
      else Prepend((16 * DigitValue(s[4]).value + DigitValue(s[5]).value) as char, ReadString(s[6..]))
    else if !IsEscape(s[1]) then None
    else Prepend(Unescaped(s[1]), ReadString(s[2..]))
  }

  /** What may follow a backslash beside u */
  predicate IsEscape(c: char) {
    c == '"' || c == '\\' || c == '/' || c == 'b' || c == 'f' || c == 'n' || c == 'r' || c == 't'
  }

  function Prepend(c: char, r: Option<(string, string)>): Option<(string, string)> {
    if r.None? then None else Some(([c] + r.value.0, r.value.1))
  }

  function Unescaped(c: char): char {
    match c
    case 'b' => '\U{0008}'
    case 'f' => '\U{000c}'
    case 'n' => '\n'
    case 'r' => '\r'
    case 't' => '\t'
    case _ => c
  }

  /** Every string comes back from its quoted form, whatever follows. */
  lemma {:induction false} ReadQuoted(s: string, rest: string)
    ensures ReadString(Escaped(s) + "\"" + rest) == Some((s, rest))
  {
    var t := Escaped(s) + "\"" + rest;
    if s == "" {
      assert t[1..] == rest;
    } else {
      ReadQuoted(s[1..], rest);
      var u := Escaped(s[1..]) + "\"" + rest;
      assert t == EscapeChar(s[0]) + u;
      hide Escaped;
      ReadEscapedChar(s[0], u);
      assert s == [s[0]] + s[1..];
    }
  }

  lemma ReadEscapedChar(c: char, u: string)
    ensures ReadString(EscapeChar(c) + u) == Prepend(c, ReadString(u))
  {
    hide ReadString, Prepend;
    var e := EscapeChar(c);
    if |e| == 1 {
      ReadPlain(e, u);
    } else if |e| == 2 {
      ReadPair(e, u);
    } else {
      ReadCode(e, u);
    }
  }

  lemma ReadPlain(e: string, u: string)
    requires |e| == 1 && e[0] >= ' ' && e[0] != '"' && e[0] != '\\'
    ensures ReadString(e + u) == Prepend(e[0], ReadString(u))
  {
    assert (e + u)[1..] == u;
  }

  lemma ReadPair(e: string, u: string)
    requires |e| == 2 && e[0] == '\\' && IsEscape(e[1])
    ensures ReadString(e + u) == Prepend(Unescaped(e[1]), ReadString(u))
  {
    hide Unescaped;
    assert (e + u)[2..] == u;
  }

  lemma ReadCode(e: string, u: string)
    requires |e| == 6 && e[0] == '\\' && e[1] == 'u' && e[2] == e[3] == '0'
    requires DigitValue(e[4]).Some? && DigitValue(e[5]).Some?
    ensures ReadString(e + u) == Prepend((16 * DigitValue(e[4]).value + DigitValue(e[5]).value) as char, ReadString(u))
  {
    hide DigitValue;
    assert (e + u)[6..] == u;
  }

  /** Escaping loses nothing. */
  lemma QuotedInjective(s: string, t: string, x: string, y: string)
    requires Quoted(s) + x == Quoted(t) + y
    ensures s == t && x == y
  {
    hide *;
    ReadQuoted(s, x);
    ReadQuoted(t, y);
    QuotedTail(s, x);
    QuotedTail(t, y);
  }

  lemma QuotedTail(s: string, x: string)
    ensures (Quoted(s) + x)[1..] == Escaped(s) + "\"" + x
  {
    hide Escaped;
  }

  // The event ------------------------------------------------------------------------------------------

  /** A piece of JSON text: the inside of a string, as it stands between its quotes, or anything else. */
  datatype Token = Str(chars: string) | Raw(chars: string)

  function TokenText(t: Token): string {
    if t.Str? then "\"" + t.chars + "\"" else t.chars
  }

  function JsonText(ts: seq<Token>): string {
    if ts == [] then "" else TokenText(ts[0]) + JsonText(ts[1..])
  }

  lemma {:induction false} JsonTextAppend(ts: seq<Token>, us: seq<Token>)
    ensures JsonText(ts + us) == JsonText(ts) + JsonText(us)
  {
    hide TokenText;
    if ts == [] {
      assert ts + us == us && JsonText(ts) == "";
    } else {
      JsonTextAppend(ts[1..], us);
      assert (ts + us)[1..] == ts[1..] + us;
      Concat(TokenText(ts[0]), JsonText(ts[1..]), JsonText(us));
    }
  }

  lemma Concat(x: string, y: string, z: string)
    ensures x + (y + z) == x + y + z
  {
  }

  function Digits(n: nat): string {
    if n < 10 then [HexDigit(n)] else Digits(n / 10) + [HexDigit(n % 10)]
  }

  /** std::to_string */
  function Decimal(n: int): string {
    if n < 0 then "-" + Digits(-n) else Digits(n)
  }

  function Field(key: string, value: string): seq<Token> {
    [Str(Escaped(key)), Raw(":"), Str(Escaped(value))]
  }

  function IntField(key: string, value: int): seq<Token> {
    [Str(Escaped(key)), Raw(":"), Raw(Decimal(value))]
  }

  function Comma(first: bool): seq<Token> {
    if first then [] else [Raw(",")]
  }

  /** ts with one more field */
  function With(ts: seq<Token>, first: bool, field: seq<Token>): seq<Token> {
    ts + Comma(first) + field
  }

  /** ts with one more field if it is present */
  function WithOptional(ts: seq<Token>, present: bool, field: seq<Token>): seq<Token> {
    if present then With(ts, false, field) else ts
  }

  /** ts with the first n entries of the data object */
  function WithData(ts: seq<Token>, data: seq<(string, string)>, n: nat): seq<Token>
    requires n <= |data|
  {
    if n == 0 then ts
    else With(WithData(ts, data, n - 1), n == 1, Field(data[n - 1].0, data[n - 1].1))
  }

  /** The fields before the data object */
  function HeadTokens(e: AuditEvent): seq<Token> {
    var ts := With([Raw("{")], true, Field("id", e.id));
    var ts := With(ts, false, Field("ts", e.ts));
    var ts := With(ts, false, IntField("lvl", e.lvl));
    var ts := With(ts, false, Field("cat", e.cat));
    var ts := With(ts, false, Field("act", e.act));
    var ts := With(ts, false, Field("sev", e.sev));
    var ts := With(ts, false, Field("host", e.host));
    var ts := WithOptional(ts, e.user != "", Field("user", e.user));
    var ts := WithOptional(ts, e.sid != "", Field("sid", e.sid));
    var ts := WithOptional(ts, e.sess != 0, IntField("sess", e.sess));
    var ts := With(ts, false, Field("src", e.src));
    WithOptional(ts, e.corr != "", Field("corr", e.corr))
  }

  /** Everything but the closing brace of the line. */
  function EventTokens(e: AuditEvent): seq<Token> {
    var ts := HeadTokens(e);
    if e.data == [] then ts
    else WithData(ts + [Raw(","), Str(Escaped("data")), Raw(":"), Raw("{")], e.data, |e.data|) + [Raw("}")]
  }

  function Serialized(e: AuditEvent): string {
    JsonText(EventTokens(e)) + "}"
  }

  /** Appends a field, after a comma unless it is the first one. */
  method AppendField(out: Text, key: string, value: string, first: bool, ghost ts: seq<Token>)
    requires out.chars == JsonText(ts)
    modifies out
    ensures out.chars == JsonText(With(ts, first, Field(key, value)))
  {
    hide Escaped, JsonText, TokenText, Quoted;
    FieldText(ts, first, [Str(Escaped(key)), Raw(":"), Str(Escaped(value))]);
    FieldTokens(key, value);
    assert JsonText(ts) + "" == JsonText(ts);
    if !first {
      out.chars := out.chars + ",";
    }
    AppendEscaped(out, key);
    out.chars := out.chars + ":";
    AppendEscaped(out, value);
  }

  lemma FieldTokens(key: string, value: string)
    ensures TokenText(Str(Escaped(key))) == Quoted(key) && TokenText(Raw(":")) == ":"
    ensures TokenText(Str(Escaped(value))) == Quoted(value)
  {
    hide Escaped;
  }

  method AppendFieldInt(out: Text, key: string, value: int, first: bool, ghost ts: seq<Token>)
    requires out.chars == JsonText(ts)
    modifies out
    ensures out.chars == JsonText(With(ts, first, IntField(key, value)))
  {
    hide Escaped, JsonText, Decimal;
    if !first {
      out.chars := out.chars + ",";
    }
    AppendEscaped(out, key);
    out.chars := out.chars + ":" + Decimal(value);
    FieldText(ts, first, [Str(Escaped(key)), Raw(":"), Raw(Decimal(value))]);
  }

  lemma FieldText(ts: seq<Token>, first: bool, f: seq<Token>)
    requires |f| == 3
    ensures JsonText(ts + Comma(first) + f)
      == JsonText(ts) + (if first then "" else ",") + TokenText(f[0]) + TokenText(f[1]) + TokenText(f[2])
  {
    JsonTextAppend(ts + Comma(first), f);
    JsonTextAppend(ts, Comma(first));
    JsonTextOne(Raw(","));
    assert JsonText([]) == "";
    JsonTextThree(f);
    hide TokenText, JsonText;
    var x := JsonText(ts + Comma(first));
    assert x == JsonText(ts) + (if first then "" else ",");
    Concat(x, TokenText(f[0]) + TokenText(f[1]), TokenText(f[2]));
    Concat(x, TokenText(f[0]), TokenText(f[1]));
  }

  lemma JsonTextThree(f: seq<Token>)
    requires |f| == 3
    ensures JsonText(f) == TokenText(f[0]) + TokenText(f[1]) + TokenText(f[2])
  {
    hide TokenText;
    var g, h := f[1..], f[2..];
    assert g[1..] == h && h[1..] == [] && JsonText(h) == TokenText(h[0]) + JsonText([]);
    assert JsonText([]) == "";
  }

  lemma JsonTextOne(t: Token)
    ensures JsonText([t]) == TokenText(t)
  {
    assert [t][1..] == [];
  }

  /** The fields before the data object */
  method AppendHead(out: Text, event: AuditEvent)
    requires out.chars == ""
    modifies out
    ensures out.chars == JsonText(HeadTokens(event))
  {
    hide JsonText, Field, IntField, With;
    out.chars := out.chars + "{";
    ghost var ts := [Raw("{")];
    JsonTextOne(Raw("{"));
    AppendField(out, "id", event.id, true, ts);
    ts := With(ts, true, Field("id", event.id));
    AppendField(out, "ts", event.ts, false, ts);
    ts := With(ts, false, Field("ts", event.ts));
    AppendFieldInt(out, "lvl", event.lvl, false, ts);
    ts := With(ts, false, IntField("lvl", event.lvl));
    AppendField(out, "cat", event.cat, false, ts);
    ts := With(ts, false, Field("cat", event.cat));
    AppendField(out, "act", event.act, false, ts);
    ts := With(ts, false, Field("act", event.act));
    AppendField(out, "sev", event.sev, false, ts);
    ts := With(ts, false, Field("sev", event.sev));
    AppendField(out, "host", event.host, false, ts);
    ts := With(ts, false, Field("host", event.host));
    if event.user != "" {
      AppendField(out, "user", event.user, false, ts);
    }
    ts := WithOptional(ts, event.user != "", Field("user", event.user));
    if event.sid != "" {
      AppendField(out, "sid", event.sid, false, ts);
    }
    ts := WithOptional(ts, event.sid != "", Field("sid", event.sid));
    if event.sess != 0 {
      AppendFieldInt(out, "sess", event.sess, false, ts);
    }
    ts := WithOptional(ts, event.sess != 0, IntField("sess", event.sess));
    AppendField(out, "src", event.src, false, ts);
    ts := With(ts, false, Field("src", event.src));
    if event.corr != "" {
      AppendField(out, "corr", event.corr, false, ts);
    }
  }

  method SerializeEventJson(event: AuditEvent) returns (json: string)
    ensures json == Serialized(event)
  {
    hide JsonText, HeadTokens, Field, With;
    var out := new Text();
    AppendHead(out, event);
    ghost var ts := HeadTokens(event);
    if event.data != [] {
      out.chars := out.chars + ",";
      AppendEscaped(out, "data");
      out.chars := out.chars + ":" + "{";
      DataStart(ts);
      ts := ts + [Raw(","), Str(Escaped("data")), Raw(":"), Raw("{")];
      for i := 0 to |event.data|
        invariant out.chars == JsonText(WithData(ts, event.data, i))
      {
        AppendField(out, event.data[i].0, event.data[i].1, i == 0, WithData(ts, event.data, i));
      }
      ts := WithData(ts, event.data, |event.data|);
      JsonTextAppend(ts, [Raw("}")]);
      JsonTextOne(Raw("}"));
      out.chars := out.chars + "}";
    }
    out.chars := out.chars + "}";
    json := out.chars;
  }

  lemma DataStart(ts: seq<Token>)
    ensures JsonText(ts + [Raw(","), Str(Escaped("data")), Raw(":"), Raw("{")]) == JsonText(ts) + "," + Quoted("data")
      + (":" + "{")
  {
    var d := Str(Escaped("data"));
    hide Escaped;
    JsonTextAppend(ts, [Raw(","), d, Raw(":"), Raw("{")]);
    JsonTextAppend([Raw(",")], [d, Raw(":"), Raw("{")]);
    JsonTextOne(Raw(","));
    JsonTextThree([d, Raw(":"), Raw("{")]);
    assert [Raw(","), d, Raw(":"), Raw("{")] == [Raw(",")] + [d, Raw(":"), Raw("{")];
    hide JsonText;
    var x := JsonText(ts);
    Concat(x, ",", TokenText(d) + ":" + "{");
    Concat(x + ",", TokenText(d) + ":", "{");
    Concat(x + ",", TokenText(d), ":");
    Concat(x + "," + TokenText(d), ":", "{");
  }
}
