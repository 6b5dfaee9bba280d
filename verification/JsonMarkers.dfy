/** Where the marker by which a sealed line is cut can occur in the text of an event: never inside a
    string, so only at a field of that name (native/UserAuditSvc/src/event_serializer.cpp and the
    search in native/UserAuditSvc/src/hash_chain.cpp). */
module JsonMarkers {
  import opened EventSerializer

  /** ,"seq": */
  const MARKER: string := ",\"seq\":"

  /** m stands in s from position p on. */
  predicate OccursAt(m: string, s: string, p: nat) {
    p + |m| <= |s| && s[p..p + |m|] == m
  }

  ghost predicate Occurs(m: string, s: string) {
    exists p: nat :: OccursAt(m, s, p)
  }

  // Well-formed pieces ---------------------------------------------------------------------------------

  /** Every quote is escaped. */
  predicate Guarded(s: string) {
    forall j :: 0 <= j < |s| && s[j] == '"' ==> j > 0 && s[j - 1] == '\\'
  }

  predicate PlainChar(c: char) {
    c == '{' || c == '}' || c == '-' || '0' <= c <= '9'
  }

  predicate WellFormed(t: Token) {
    match t
    case Str(s) => Guarded(s) && Visible(s)
    case Raw(s) => s == "," || s == ":" || (s != "" && forall j :: 0 <= j < |s| ==> PlainChar(s[j]))
  }

  predicate AllWellFormed(ts: seq<Token>) {
    forall i :: 0 <= i < |ts| ==> WellFormed(ts[i])
  }

  lemma {:induction false} EscapedGuarded(s: string)
    ensures Guarded(Escaped(s))
  {
    if s != "" {
      EscapedGuarded(s[1..]);
      GuardedAppend(EscapeChar(s[0]), Escaped(s[1..]));
    }
  }

  lemma GuardedAppend(s: string, t: string)
    requires Guarded(s) && Guarded(t)
    ensures Guarded(s + t)
  {
  }

  lemma {:induction false} DigitsPlain(n: nat)
    ensures Digits(n) != "" && forall j :: 0 <= j < |Digits(n)| ==> PlainChar(Digits(n)[j])
  {
    if n >= 10 { DigitsPlain(n / 10); }
  }

  lemma DecimalPlain(n: int)
    ensures WellFormed(Raw(Decimal(n)))
  {
    if n < 0 { DigitsPlain(-n); } else { DigitsPlain(n); }
  }

  // The marker in the text of tokens -------------------------------------------------------------------

  /** Token i is a key "seq" after a comma. */
  predicate SeqKeyAt(ts: seq<Token>, i: nat) {
    0 < i && i + 1 < |ts| && ts[i - 1] == Raw(",") && ts[i] == Str("seq") && ts[i + 1] == Raw(":")
  }

  ghost predicate HasSeqKey(ts: seq<Token>) {
    exists i: nat :: SeqKeyAt(ts, i)
  }

  /** The text continues with x from position p on. */
  predicate StartsAt(s: string, p: nat, x: string) {
    p <= |s| && |x| <= |s| - p && forall k :: 0 <= k < |x| ==> s[p + k] == x[k]
  }

  lemma OccursStarts(m: string, s: string, p: nat)
    ensures OccursAt(m, s, p) <==> StartsAt(s, p, m)
  {
    if OccursAt(m, s, p) {
      forall k | 0 <= k < |m| ensures s[p + k] == m[k] {
        assert s[p..p + |m|][k] == m[k];
      }
    }
  }

  /** An occurrence of the marker shows a key "seq" among the tokens. */
  lemma {:induction false} MarkerShowsKey(ts: seq<Token>, p: nat)
    requires AllWellFormed(ts) && StartsAt(JsonText(ts), p, MARKER)
    ensures HasSeqKey(ts)
  {
    var x, rest := TokenText(ts[0]), JsonText(ts[1..]);
    var s := JsonText(ts);
    assert s == x + rest;
    if p >= |x| {
      ShiftStart(x, rest, p, MARKER);
      MarkerShowsKey(ts[1..], p - |x|);
      KeyShift(ts);
    } else {
      TextStart(ts[1..]);
      hide JsonText;
      assert WellFormed(ts[0]);
      if ts[0].Str? {
        MarkerNotInString(ts[0].chars, rest, s, p);
      } else {
        MarkerAfterComma(ts[0].chars, rest, s, p);
        KeyAfterComma(ts);
        assert SeqKeyAt(ts, 1);
      }
    }
  }

  lemma ShiftStart(x: string, y: string, p: nat, m: string)
    requires p >= |x| && StartsAt(x + y, p, m)
    ensures StartsAt(y, p - |x|, m)
  {
    forall k | 0 <= k < |m| ensures y[p - |x| + k] == m[k] {
      assert (x + y)[p + k] == y[p - |x| + k];
    }
  }

  lemma KeyShift(ts: seq<Token>)
    requires ts != [] && HasSeqKey(ts[1..])
    ensures HasSeqKey(ts)
  {
    var i: nat :| SeqKeyAt(ts[1..], i);
    assert SeqKeyAt(ts, i + 1);
  }

  /** In a quoted string only the closing quote follows a character that is not a backslash. */
  lemma QuotesOf(c: string, rest: string, s: string, j: nat)
    requires Guarded(c) && s == "\"" + c + "\"" + rest && 1 <= j < |c| + 2
    ensures s[j] == '"' ==> j == |c| + 1 || s[j - 1] == '\\'
    ensures s[0] == '"' && s[|c| + 1] == '"' && (rest != "" ==> s[|c| + 2] == rest[0])
  {
    if j <= |c| {
      assert s[j] == c[j - 1];
      assert j >= 2 ==> s[j - 1] == c[j - 2];
    }
  }

  /** The marker does not begin in a string. */
  lemma MarkerNotInString(c: string, rest: string, s: string, p: nat)
    requires Guarded(c) && s == "\"" + c + "\"" + rest && p < |c| + 2
    requires rest != "" ==> rest[0] != 's'
    ensures !StartsAt(s, p, MARKER)
  {
    var m := MARKER;
    assert m[0] == ',' && m[1] == '"' && m[2] == 's';
    QuotesOf(c, rest, s, if p + 1 < |c| + 2 then p + 1 else p);
    if StartsAt(s, p, m) {
      NextChars(s, p, m);
    }
  }

  lemma NextChars(s: string, p: nat, m: string)
    requires StartsAt(s, p, m) && |m| >= 3
    ensures p + 2 < |s| && s[p] == m[0] && s[p + 1] == m[1] && s[p + 2] == m[2]
  {
  }

  /** One that begins outside the strings begins with the comma before one. */
  lemma MarkerAfterComma(r: string, rest: string, s: string, p: nat)
    requires WellFormed(Raw(r)) && s == r + rest && p < |r| && StartsAt(s, p, MARKER)
    ensures r == "," && StartsAt(rest, 0, "\"seq\":")
  {
    NextChars(s, p, MARKER);
    assert s[p] == r[p];
    forall k | 0 <= k < 6 ensures s[1 + k] == "\"seq\":"[k] {
      assert s[p + (k + 1)] == MARKER[k + 1];
    }
  }

  /** Text begins with a quote, punctuation or a digit. */
  lemma TextStart(ts: seq<Token>)
    requires AllWellFormed(ts)
    ensures ts == [] ==> JsonText(ts) == ""
    ensures ts != [] ==> JsonText(ts) != "" && JsonText(ts)[0] == TokenText(ts[0])[0]
    ensures ts != [] && ts[0].Raw? ==> JsonText(ts)[0] != '"' && JsonText(ts)[0] != 's'
    ensures ts != [] && ts[0].Str? ==> JsonText(ts)[0] == '"'
  {
    if ts != [] {
      assert WellFormed(ts[0]);
    }
  }

  /** What follows the comma is the key. */
  lemma KeyAfterComma(ts: seq<Token>)
    requires AllWellFormed(ts) && ts != [] && StartsAt(JsonText(ts[1..]), 0, "\"seq\":")
    ensures |ts| >= 3 && ts[1] == Str("seq") && ts[2] == Raw(":")
  {
    var us, m := ts[1..], "\"seq\":";
    var s := JsonText(us);
    assert s[0] == m[0] == '"' && s[1] == m[1] && s[2] == m[2] && s[3] == m[3] && s[4] == m[4] && s[5] == m[5];
    TextStart(us);
    var c, rest := us[0].chars, JsonText(us[1..]);
    assert s == "\"" + c + "\"" + rest;
    assert WellFormed(us[0]);
    hide JsonText;
    KeyContent(c, rest, s);
    TextStart(us[1..]);
    assert WellFormed(us[1]);
  }

  lemma KeyContent(c: string, rest: string, s: string)
    requires Guarded(c) && s == "\"" + c + "\"" + rest && |s| >= 6
    requires s[1] == 's' && s[2] == 'e' && s[3] == 'q' && s[4] == '"' && s[5] == ':'
    ensures c == "seq" && rest != "" && rest[0] == ':'
  {
    QuotesOf(c, rest, s, if |c| >= 3 then 4 else 1);
    assert |c| == 3;
    assert forall k :: 0 <= k < |c| ==> s[k + 1] == c[k];
    assert c == [s[1], s[2], s[3]];
  }

  // And back: a key "seq" shows the marker ---------------------------------------------------------------

  lemma KeyShowsMarker(ts: seq<Token>, i: nat)
    requires SeqKeyAt(ts, i)
    ensures Occurs(MARKER, JsonText(ts))
  {
    var a, b, c := ts[..i - 1], [Raw(","), Str("seq"), Raw(":")], ts[i + 2..];
    assert ts == a + (b + c);
    hide TokenText;
    JsonTextAppend(a, b + c);
    JsonTextAppend(b, c);
    JsonTextThree(b);
    hide JsonText;
    TripleText();
    Inserted(JsonText(a), MARKER, JsonText(c));
  }

  lemma TripleText()
    ensures TokenText(Raw(",")) + TokenText(Str("seq")) + TokenText(Raw(":")) == MARKER
  {
  }

  lemma Inserted(x: string, m: string, z: string)
    ensures Occurs(m, x + (m + z))
  {
    assert (x + (m + z))[|x|..|x| + |m|] == m;
    assert OccursAt(m, x + (m + z), |x|);
  }

  /** The marker occurs exactly where there is a key "seq". */
  lemma MarkerIffKey(ts: seq<Token>)
    requires AllWellFormed(ts)
    ensures Occurs(MARKER, JsonText(ts)) <==> HasSeqKey(ts)
  {
    hide JsonText, SeqKeyAt;
    if Occurs(MARKER, JsonText(ts)) {
      var p: nat :| OccursAt(MARKER, JsonText(ts), p);
      OccursStarts(MARKER, JsonText(ts), p);
      MarkerShowsKey(ts, p);
    }
    if HasSeqKey(ts) {
      var i: nat :| SeqKeyAt(ts, i);
      KeyShowsMarker(ts, i);
    }
  }

  // The tokens of an event -------------------------------------------------------------------------------

  /** Escaping "seq" leaves it alone and turns nothing else into it. */
  lemma EscapedSeq(k: string)
    ensures Escaped(k) == "seq" <==> k == "seq"
  {
    SeqPlain();
    if Escaped(k) == "seq" {
      QuotedInjective(k, "seq", "", "");
    }
  }

  lemma SeqPlain()
    ensures Escaped("seq") == "seq"
  {
    assert "seq"[1..] == "eq" && "eq"[1..] == "q" && "q"[1..] == "";
    assert Escaped("q") == "q" && Escaped("eq") == "eq";
  }

  /** Tokens that another field may follow. */
  predicate Open(ts: seq<Token>) {
    AllWellFormed(ts) && ts != [] && ts[0] == Raw("{") && ts[|ts| - 1] != Raw(",")
  }

  /** A key cannot arise where two parts meet. */
  lemma KeyAppend(ts: seq<Token>, us: seq<Token>)
    requires Open(ts) && us != [] && us[0] != Raw(":")
    ensures HasSeqKey(ts + us) <==> HasSeqKey(ts) || HasSeqKey(us)
  {
    var n := |ts|;
    if HasSeqKey(ts + us) {
      var i: nat :| SeqKeyAt(ts + us, i);
      if i + 1 < n {
        assert SeqKeyAt(ts, i);
      } else {
        assert i > n;
        assert SeqKeyAt(us, i - n);
      }
    }
    if HasSeqKey(ts) {
      var i: nat :| SeqKeyAt(ts, i);
      assert SeqKeyAt(ts + us, i);
    }
    if HasSeqKey(us) {
      var i: nat :| SeqKeyAt(us, i);
      assert SeqKeyAt(ts + us, n + i);
    }
  }

  /** Of three tokens that make up a field, with or without a comma before them, one can be the key "seq". */
  lemma FieldKey(key: string, v: Token, first: bool)
    requires WellFormed(v) && v != Raw(",")
    ensures var us := Comma(first) + [Str(Escaped(key)), Raw(":"), v];
      AllWellFormed(us) && us[|us| - 1] == v && us[0] != Raw(":") && (HasSeqKey(us) <==> !first && key == "seq")
  {
    EscapedGuarded(key);
    EscapedVisible(key);
    EscapedSeq(key);
    var k := Str(Escaped(key));
    hide Escaped;
    var us := Comma(first) + [k, Raw(":"), v];
    if !first {
      assert us == [Raw(","), k, Raw(":"), v];
      assert key == "seq" ==> SeqKeyAt(us, 1);
    } else {
      assert us == [k, Raw(":"), v];
    }
  }

  lemma WithKey(ts: seq<Token>, first: bool, key: string, v: Token)
    requires Open(ts) && WellFormed(v) && v != Raw(",")
    ensures var us := With(ts, first, [Str(Escaped(key)), Raw(":"), v]);
      Open(us) && (HasSeqKey(us) <==> HasSeqKey(ts) || (!first && key == "seq"))
  {
    FieldKey(key, v, first);
    hide Escaped;
    var us := Comma(first) + [Str(Escaped(key)), Raw(":"), v];
    KeyAppend(ts, us);
    hide HasSeqKey;
    assert With(ts, first, [Str(Escaped(key)), Raw(":"), v]) == ts + us;
  }

  lemma WithFieldKey(ts: seq<Token>, first: bool, key: string, value: string)
    requires Open(ts)
    ensures Open(With(ts, first, Field(key, value)))
    ensures HasSeqKey(With(ts, first, Field(key, value))) <==> HasSeqKey(ts) || (!first && key == "seq")
  {
    hide Escaped, HasSeqKey, With;
    EscapedGuarded(value);
    EscapedVisible(value);
    WithKey(ts, first, key, Str(Escaped(value)));
  }

  lemma WithIntFieldKey(ts: seq<Token>, first: bool, key: string, value: int)
    requires Open(ts)
    ensures Open(With(ts, first, IntField(key, value)))
    ensures HasSeqKey(With(ts, first, IntField(key, value))) <==> HasSeqKey(ts) || (!first && key == "seq")
  {
    hide Escaped, HasSeqKey, With, Decimal;
    DecimalPlain(value);
    DecimalNotComma(value);
    WithKey(ts, first, key, Raw(Decimal(value)));
  }

  lemma DecimalNotComma(n: int)
    ensures Decimal(n) != ","
  {
    if n < 0 { DigitsPlain(-n); } else { DigitsPlain(n); }
  }

  /** The constant keys before the data object are not "seq". */
  lemma HeadHasNoKey(e: AuditEvent)
    ensures Open(HeadTokens(e)) && !HasSeqKey(HeadTokens(e))
  {
    hide Open, HasSeqKey, With, Field, IntField;
    var ts := [Raw("{")];
    assert Open(ts) && !HasSeqKey(ts) by { BraceHasNoKey(); }
    WithFieldKey(ts, true, "id", e.id);
    ts := With(ts, true, Field("id", e.id));
    WithFieldKey(ts, false, "ts", e.ts);
    ts := With(ts, false, Field("ts", e.ts));
    WithIntFieldKey(ts, false, "lvl", e.lvl);
    ts := With(ts, false, IntField("lvl", e.lvl));
    WithFieldKey(ts, false, "cat", e.cat);
    ts := With(ts, false, Field("cat", e.cat));
    WithFieldKey(ts, false, "act", e.act);
    ts := With(ts, false, Field("act", e.act));
    WithFieldKey(ts, false, "sev", e.sev);
    ts := With(ts, false, Field("sev", e.sev));
    WithFieldKey(ts, false, "host", e.host);
    ts := With(ts, false, Field("host", e.host));
    WithFieldKey(ts, false, "user", e.user);
    ts := WithOptional(ts, e.user != "", Field("user", e.user));
    WithFieldKey(ts, false, "sid", e.sid);
    ts := WithOptional(ts, e.sid != "", Field("sid", e.sid));
    WithIntFieldKey(ts, false, "sess", e.sess);
    ts := WithOptional(ts, e.sess != 0, IntField("sess", e.sess));
    WithFieldKey(ts, false, "src", e.src);
    ts := With(ts, false, Field("src", e.src));
    WithFieldKey(ts, false, "corr", e.corr);
  }

  lemma BraceHasNoKey()
    ensures Open([Raw("{")]) && !HasSeqKey([Raw("{")])
  {
  }

  /** One of the data entries after the first has the key "seq". */
  predicate SeqAfterFirst(data: seq<(string, string)>, n: nat)
    requires n <= |data|
  {
    exists i :: 1 <= i < n && data[i].0 == "seq"
  }

  lemma {:induction false} DataKeys(ts: seq<Token>, data: seq<(string, string)>, n: nat)
    requires Open(ts) && !HasSeqKey(ts) && n <= |data|
    ensures Open(WithData(ts, data, n))
    ensures HasSeqKey(WithData(ts, data, n)) <==> SeqAfterFirst(data, n)
  {
    hide Open, HasSeqKey, With, Field;
    if n > 0 {
      DataKeys(ts, data, n - 1);
      WithFieldKey(WithData(ts, data, n - 1), n == 1, data[n - 1].0, data[n - 1].1);
    }
  }

  /** A field of the name "seq" after a comma arises only from a data entry that is not the first. */
  lemma EventKeys(e: AuditEvent)
    ensures AllWellFormed(EventTokens(e)) && Open(EventTokens(e))
    ensures HasSeqKey(EventTokens(e)) <==> SeqAfterFirst(e.data, |e.data|)
  {
    hide HeadTokens, HasSeqKey, WithData, Escaped;
    HeadHasNoKey(e);
    var head := HeadTokens(e);
    if e.data != [] {
      hide SeqAfterFirst;
      var start := [Raw(","), Str(Escaped("data")), Raw(":"), Raw("{")];
      DataStartKey();
      KeyAppend(head, start);
      DataKeys(head + start, e.data, |e.data|);
      NoKeyInOne(Raw("}"));
      KeyAppend(WithData(head + start, e.data, |e.data|), [Raw("}")]);
    }
  }

  lemma DataStartKey()
    ensures var us := [Raw(","), Str(Escaped("data")), Raw(":"), Raw("{")];
      AllWellFormed(us) && !HasSeqKey(us)
  {
    EscapedGuarded("data");
    EscapedVisible("data");
    EscapedSeq("data");
  }

  lemma NoKeyInOne(t: Token)
    ensures !HasSeqKey([t])
  {
  }

  /** Where the serialised event without its closing brace holds the marker that cuts a sealed line. */
  lemma EventMarker(e: AuditEvent)
    ensures Occurs(MARKER, JsonText(EventTokens(e))) <==> SeqAfterFirst(e.data, |e.data|)
  {
    hide *;
    EventKeys(e);
    MarkerIffKey(EventTokens(e));
  }

  // Lines --------------------------------------------------------------------------------------------------

  lemma {:induction false} TextVisible(ts: seq<Token>)
    requires AllWellFormed(ts)
    ensures Visible(JsonText(ts))
  {
    if ts != [] {
      assert WellFormed(ts[0]);
      TextVisible(ts[1..]);
    }
  }

  /** The text of an event is one line, and no string in it holds a control character. */
  lemma SerializedVisible(e: AuditEvent)
    ensures Visible(Serialized(e))
  {
    hide EventTokens, JsonText;
    EventKeys(e);
    TextVisible(EventTokens(e));
  }
}
