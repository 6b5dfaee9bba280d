/** The text of an event determines the event, and with it the code that ends a chain determines the events of
    the chain. */
module EventMembers {
  import opened EventSerializer
  import opened JsonMarkers
  import opened HashChain

  datatype Value = Text(s: string) | Number(n: int) | Object(entries: seq<(string, string)>)

  datatype Member = Member(key: string, value: Value)

  function MemberText(m: Member): string
    decreases m, 0
  {
    "," + Quoted(m.key) + ":" + ValueText(m.value)
  }

  function ValueText(v: Value): string {
    match v
    case Text(s) => Quoted(s)
    case Number(n) => Decimal(n)
    case Object(entries) => Braces(EntriesText(entries))
  }

  /** The text in braces, without the comma it starts with */
  function Braces(text: string): string {
    "{" + (if text == "" then text else text[1..]) + "}"
  }

  function EntriesText(entries: seq<(string, string)>): string {
    if entries == [] then ""
    else "," + Quoted(entries[0].0) + ":" + Quoted(entries[0].1) + EntriesText(entries[1..])
  }

  function MembersText(ms: seq<Member>): string {
    if ms == [] then "" else MemberText(ms[0]) + MembersText(ms[1..])
  }

  function Optional(present: bool, m: Member): seq<Member> {
    if present then [m] else []
  }

  function Leading(e: AuditEvent): seq<Member> {
    [Member("id", Text(e.id)), Member("ts", Text(e.ts)), Member("lvl", Number(e.lvl)), Member("cat", Text(e.cat)),
     Member("act", Text(e.act)), Member("sev", Text(e.sev)), Member("host", Text(e.host))]
  }

  function FromCorr(e: AuditEvent): seq<Member> {
    Optional(e.corr != "", Member("corr", Text(e.corr))) + Optional(e.data != [], Member("data", Object(e.data)))
  }

  function FromSrc(e: AuditEvent): seq<Member> {
    [Member("src", Text(e.src))] + FromCorr(e)
  }

  function FromSess(e: AuditEvent): seq<Member> {
    Optional(e.sess != 0, Member("sess", Number(e.sess))) + FromSrc(e)
  }

  function FromSid(e: AuditEvent): seq<Member> {
    Optional(e.sid != "", Member("sid", Text(e.sid))) + FromSess(e)
  }

  function FromUser(e: AuditEvent): seq<Member> {
    Optional(e.user != "", Member("user", Text(e.user))) + FromSid(e)
  }

  /** The fields of an event, each unless it is left out */
  function Members(e: AuditEvent): seq<Member> {
    Leading(e) + FromUser(e)
  }

  // The members make up the text ---------------------------------------------------------------------------

  lemma {:induction false} MembersTextAppend(ms: seq<Member>, ns: seq<Member>)
    ensures MembersText(ms + ns) == MembersText(ms) + MembersText(ns)
  {
    hide MemberText;
    if ms == [] {
      assert ms + ns == ns && MembersText(ms) == "";
    } else {
      MembersTextAppend(ms[1..], ns);
      assert (ms + ns)[1..] == ms[1..] + ns;
      Concat(MemberText(ms[0]), MembersText(ms[1..]), MembersText(ns));
    }
  }

  /** The tokens so far are those of the members so far, with a brace for the comma they start with. */
  ghost predicate Agree(ts: seq<Token>, ms: seq<Member>) {
    MembersText(ms) != "" && JsonText(ts) == "{" + MembersText(ms)[1..]
  }

  lemma NextMember(ts: seq<Token>, ms: seq<Member>, present: bool, m: Member, f: seq<Token>)
    requires Agree(ts, ms) && |f| == 3
    requires "," + TokenText(f[0]) + TokenText(f[1]) + TokenText(f[2]) == MemberText(m)
    ensures Agree(WithOptional(ts, present, f), ms + Optional(present, m))
    ensures Agree(With(ts, false, f), ms + [m])
  {
    hide MemberText, JsonText, TokenText;
    assert ms + [] == ms;
    FieldText(ts, false, f);
    MembersTextAppend(ms, [m]);
    OneMember(m);
    hide MembersText;
    var j, t, u := JsonText(ts), MembersText(ms), MemberText(m);
    Grow(j, t, u);
    Regroup(j, TokenText(f[0]), TokenText(f[1]), TokenText(f[2]));
  }

  lemma Grow(j: string, t: string, u: string)
    requires t != "" && j == "{" + t[1..]
    ensures j + u == "{" + (t + u)[1..]
  {
    assert (t + u)[1..] == t[1..] + u;
  }

  lemma Regroup(j: string, a: string, b: string, c: string)
    ensures j + "," + a + b + c == j + ("," + a + b + c)
  {
    Concat(j, "," + a + b, c);
    Concat(j, "," + a, b);
    Concat(j, ",", a);
  }

  lemma OneMember(m: Member)
    ensures MembersText([m]) == MemberText(m)
  {
    hide MemberText;
    assert [m][1..] == [] && MembersText([]) == "";
  }

  lemma MembersTextStart(ms: seq<Member>)
    requires ms != []
    ensures MembersText(ms) != "" && MembersText(ms)[0] == ','
  {
  }

  lemma TextMember(key: string, s: string)
    ensures var f := Field(key, s);
      "," + TokenText(f[0]) + TokenText(f[1]) + TokenText(f[2]) == MemberText(Member(key, Text(s)))
  {
  }

  lemma NumberMember(key: string, n: int)
    ensures var f := IntField(key, n);
      "," + TokenText(f[0]) + TokenText(f[1]) + TokenText(f[2]) == MemberText(Member(key, Number(n)))
  {
  }

  lemma FirstMember(e: AuditEvent)
    ensures Agree(With([Raw("{")], true, Field("id", e.id)), [Member("id", Text(e.id))])
  {
    hide JsonText, TokenText, MemberText;
    var f, m := Field("id", e.id), Member("id", Text(e.id));
    JsonTextOne(Raw("{"));
    OpeningBrace();
    FieldText([Raw("{")], true, f);
    TextMember("id", e.id);
    OneMember(m);
    hide MembersText, Field;
    FirstText(TokenText(f[0]), TokenText(f[1]), TokenText(f[2]));
  }

  lemma OpeningBrace()
    ensures TokenText(Raw("{")) == "{"
  {
  }

  lemma FirstText(a: string, b: string, c: string)
    ensures "," + a + b + c != "" && "{" + "" + a + b + c == "{" + ("," + a + b + c)[1..]
  {
    assert ("," + a + b + c)[1..] == a + b + c;
    Concat("{", a + b, c);
    Concat("{", a, b);
  }

  /** The members before the data object */
  function Head(e: AuditEvent): seq<Member> {
    [Member("id", Text(e.id))] + [Member("ts", Text(e.ts))] + [Member("lvl", Number(e.lvl))]
    + [Member("cat", Text(e.cat))] + [Member("act", Text(e.act))] + [Member("sev", Text(e.sev))]
    + [Member("host", Text(e.host))]
    + Optional(e.user != "", Member("user", Text(e.user))) + Optional(e.sid != "", Member("sid", Text(e.sid)))
    + Optional(e.sess != 0, Member("sess", Number(e.sess))) + [Member("src", Text(e.src))]
    + Optional(e.corr != "", Member("corr", Text(e.corr)))
  }

  lemma HeadAgrees(e: AuditEvent)
    ensures Agree(HeadTokens(e), Head(e))
  {
    hide Agree, Field, IntField, With, TokenText, MemberText;
    FirstMember(e);
    var ts, ms := With([Raw("{")], true, Field("id", e.id)), [Member("id", Text(e.id))];
    ts, ms := NextText(ts, ms, "ts", e.ts);
    ts, ms := NextNumber(ts, ms, true, "lvl", e.lvl);
    ts, ms := NextText(ts, ms, "cat", e.cat);
    ts, ms := NextText(ts, ms, "act", e.act);
    ts, ms := NextText(ts, ms, "sev", e.sev);
    ts, ms := NextText(ts, ms, "host", e.host);
    ts, ms := NextOptional(ts, ms, "user", e.user);
    ts, ms := NextOptional(ts, ms, "sid", e.sid);
    ts, ms := NextNumber(ts, ms, e.sess != 0, "sess", e.sess);
    ts, ms := NextText(ts, ms, "src", e.src);
    ts, ms := NextOptional(ts, ms, "corr", e.corr);
  }

  lemma NextText(ts: seq<Token>, ms: seq<Member>, key: string, s: string) returns (ts': seq<Token>, ms': seq<Member>)
    requires Agree(ts, ms)
    ensures ts' == With(ts, false, Field(key, s)) && ms' == ms + [Member(key, Text(s))] && Agree(ts', ms')
  {
    hide Agree, TokenText, MemberText, With;
    ts', ms' := With(ts, false, Field(key, s)), ms + [Member(key, Text(s))];
    TextMember(key, s);
    NextMember(ts, ms, true, Member(key, Text(s)), Field(key, s));
  }

  lemma NextOptional(ts: seq<Token>, ms: seq<Member>, key: string, s: string)
    returns (ts': seq<Token>, ms': seq<Member>)
    requires Agree(ts, ms)
    ensures ts' == WithOptional(ts, s != "", Field(key, s)) && ms' == ms + Optional(s != "", Member(key, Text(s)))
    ensures Agree(ts', ms')
  {
    hide Agree, TokenText, MemberText, With;
    ts', ms' := WithOptional(ts, s != "", Field(key, s)), ms + Optional(s != "", Member(key, Text(s)));
    TextMember(key, s);
    NextMember(ts, ms, s != "", Member(key, Text(s)), Field(key, s));
  }

  lemma NextNumber(ts: seq<Token>, ms: seq<Member>, present: bool, key: string, n: int)
    returns (ts': seq<Token>, ms': seq<Member>)
    requires Agree(ts, ms)
    ensures ts' == WithOptional(ts, present, IntField(key, n)) && ms' == ms + Optional(present, Member(key, Number(n)))
    ensures Agree(ts', ms')
  {
    hide Agree, TokenText, MemberText, With;
    ts', ms' := WithOptional(ts, present, IntField(key, n)), ms + Optional(present, Member(key, Number(n)));
    NumberMember(key, n);
    NextMember(ts, ms, present, Member(key, Number(n)), IntField(key, n));
  }

  // The data object ----------------------------------------------------------------------------------------

  lemma {:induction false} EntriesTextLast(entries: seq<(string, string)>, n: nat)
    requires n < |entries|
    ensures EntriesText(entries[..n + 1])
      == EntriesText(entries[..n]) + ("," + Quoted(entries[n].0) + ":" + Quoted(entries[n].1))
    decreases |entries|
  {
    hide Escaped, Quoted;
    var e := entries[..n + 1];
    if n == 0 {
      assert e[1..] == [] && EntriesText([]) == "" && entries[..0] == [];
    } else {
      var rest := entries[1..];
      EntriesTextLast(rest, n - 1);
      assert e[1..] == rest[..n] && entries[..n][1..] == rest[..n - 1];
      Concat("," + Quoted(entries[0].0) + ":" + Quoted(entries[0].1), EntriesText(rest[..n - 1]),
        "," + Quoted(entries[n].0) + ":" + Quoted(entries[n].1));
    }
  }

  /** The text of the entries so far, without the comma it starts with */
  lemma {:induction false} DataText(ts: seq<Token>, data: seq<(string, string)>, n: nat)
    requires 0 < n <= |data|
    ensures EntriesText(data[..n]) != ""
    ensures JsonText(WithData(ts, data, n)) == JsonText(ts) + EntriesText(data[..n])[1..]
  {
    hide Escaped, JsonText, EntriesText, Quoted, TokenText;
    var f := Field(data[n - 1].0, data[n - 1].1);
    EntriesTextLast(data, n - 1);
    FieldText(WithData(ts, data, n - 1), n == 1, f);
    EntryTokens(data[n - 1].0, data[n - 1].1);
    var j, k, v := JsonText(ts), Quoted(data[n - 1].0), Quoted(data[n - 1].1);
    if n == 1 {
      NoEntries(data[..0]);
      EntryAlone(j, k, v);
    } else {
      DataText(ts, data, n - 1);
      EntryAfter(j, EntriesText(data[..n - 1]), k, v);
    }
  }

  lemma NoEntries(entries: seq<(string, string)>)
    requires entries == []
    ensures EntriesText(entries) == ""
  {
  }

  lemma EntryTokens(key: string, value: string)
    ensures var f := Field(key, value);
      TokenText(f[0]) == Quoted(key) && TokenText(f[1]) == ":" && TokenText(f[2]) == Quoted(value)
  {
  }

  lemma EntryAlone(j: string, k: string, v: string)
    ensures j + "" + k + ":" + v == j + ("" + ("," + k + ":" + v))[1..]
  {
    assert ("" + ("," + k + ":" + v))[1..] == k + ":" + v;
    Concat(j, k + ":", v);
    Concat(j, k, ":");
  }

  lemma EntryAfter(j: string, t: string, k: string, v: string)
    requires t != ""
    ensures (j + t[1..]) + "," + k + ":" + v == j + (t + ("," + k + ":" + v))[1..]
  {
    var x, u := t[1..], "," + k + ":" + v;
    Regroup(j + x, k, ":", v);
    TailAppend(t, u);
    hide *;
    Concat(j, x, u);
  }

  lemma TailAppend(t: string, u: string)
    requires t != ""
    ensures (t + u)[1..] == t[1..] + u
  {
  }

  lemma Reassociate(l: seq<Member>, u: seq<Member>, s: seq<Member>, n: seq<Member>, c: seq<Member>, k: seq<Member>,
                    d: seq<Member>)
    ensures l + (u + (s + (n + (c + (k + d))))) == l + u + s + n + c + k + d
  {
  }

  lemma MembersOfHead(e: AuditEvent)
    ensures Members(e) == Head(e) + Optional(e.data != [], Member("data", Object(e.data)))
  {
    var l := Leading(e);
    assert l == [l[0]] + [l[1]] + [l[2]] + [l[3]] + [l[4]] + [l[5]] + [l[6]];
    var u, s := Optional(e.user != "", Member("user", Text(e.user))), Optional(e.sid != "", Member("sid", Text(e.sid)));
    var n, c := Optional(e.sess != 0, Member("sess", Number(e.sess))), [Member("src", Text(e.src))];
    var k := Optional(e.corr != "", Member("corr", Text(e.corr)));
    var d := Optional(e.data != [], Member("data", Object(e.data)));
    hide Optional;
    Reassociate(l, u, s, n, c, k, d);
  }

  /** The text of an event is the object of its members. */
  lemma SerializedMembers(e: AuditEvent)
    ensures Serialized(e) == Braces(MembersText(Members(e)))
  {
    hide HeadTokens, Agree, JsonText, MembersText, MemberText, Escaped;
    HeadAgrees(e);
    var ts, ms := HeadTokens(e), Head(e);
    var m := Member("data", Object(e.data));
    MembersOfHead(e);
    hide Members, Head;
    assert ms + [] == ms;
    Unagree(ts, ms);
    if e.data != [] {
      MembersTextAppend(ms, [m]);
      OneMember(m);
      DataObject(ts, MembersText(ms), e.data);
    }
  }

  lemma Unagree(ts: seq<Token>, ms: seq<Member>)
    requires Agree(ts, ms)
    ensures MembersText(ms) != "" && JsonText(ts) == "{" + MembersText(ms)[1..]
  {
  }

  lemma DataObject(ts: seq<Token>, t: string, data: seq<(string, string)>)
    requires t != "" && JsonText(ts) == "{" + t[1..] && data != []
    ensures var us := WithData(ts + [Raw(","), Str(Escaped("data")), Raw(":"), Raw("{")], data, |data|) + [Raw("}")];
      JsonText(us) + "}" == Braces(t + MemberText(Member("data", Object(data))))
  {
    hide JsonText, EntriesText, WithData;
    var start := ts + [Raw(","), Str(Escaped("data")), Raw(":"), Raw("{")];
    DataStart(ts);
    DataText(start, data, |data|);
    assert data[..|data|] == data;
    JsonTextAppend(WithData(start, data, |data|), [Raw("}")]);
    JsonTextOne(Raw("}"));
    var q, x := Quoted("data"), EntriesText(data);
    hide Quoted, Escaped;
    assert MemberText(Member("data", Object(data))) == "," + q + ":" + ("{" + x[1..] + "}");
    DataGrow(JsonText(ts), t, q, x);
  }

  lemma DataGrow(j: string, t: string, q: string, x: string)
    requires t != "" && x != "" && j == "{" + t[1..]
    ensures j + "," + q + (":" + "{") + x[1..] + "}" + "}" == Braces(t + ("," + q + ":" + ("{" + x[1..] + "}")))
  {
    var y, a, b, c := x[1..], "," + q, ":" + "{", "}";
    var u := a + ":" + ("{" + y + c);
    Concat(j, ",", q);
    Concat(a + ":", "{" + y, c);
    Concat(a + ":", "{", y);
    Concat(a, ":", "{");
    Concat(j, a + b + y, c);
    Concat(j, a + b, y);
    Concat(j, a, b);
    Grow(j, t, u);
  }

  // A sealed event -----------------------------------------------------------------------------------------

  /** Nothing that has to be escaped */
  predicate PlainText(s: string) {
    forall i :: 0 <= i < |s| ==> s[i] >= ' ' && s[i] != '"' && s[i] != '\\'
  }

  lemma {:induction false} PlainEscaped(s: string)
    requires PlainText(s)
    ensures Escaped(s) == s
  {
    if s != "" {
      PlainEscaped(s[1..]);
      assert s == [s[0]] + s[1..];
    }
  }

  lemma CodePlain(h: string)
    requires CodeText(h)
    ensures PlainText(h)
  {
    var g := "genesis";
    assert g[0] == 'g' && g[1] == 'e' && g[2] == 'n' && g[3] == 'e' && g[4] == 's' && g[5] == 'i' && g[6] == 's';
    forall i | 0 <= i < |h| ensures h[i] >= ' ' && h[i] != '"' && h[i] != '\\' {
      assert h == g || IsHex(h[i]);
    }
  }

  /** The members that sealing adds */
  function SealMembers(n: nat, prev: string, hmac: string): seq<Member> {
    [Member("seq", Number(n)), Member("prev_hmac", Text(prev)), Member("hmac", Text(hmac))]
  }

  lemma SealMembersText(n: nat, prev: string, hmac: string)
    requires PlainText(prev) && PlainText(hmac)
    ensures MembersText(SealMembers(n, prev, hmac)) + "}" == ",\"seq\":" + Digits(n) + "," + Tail(prev, hmac)
  {
    hide *;
    var ms := SealMembers(n, prev, hmac);
    var a, b, c := MemberText(Member("seq", Number(n))), MemberText(Member("prev_hmac", Text(prev))),
      MemberText(Member("hmac", Text(hmac)));
    ThreeMembers(n, prev, hmac);
    NumberText("seq", n);
    PlainMember("prev_hmac", prev);
    PlainMember("hmac", hmac);
    PlainNames();
    SealText(Digits(n), prev, hmac, a, b, c);
  }

  lemma ThreeMembers(n: nat, prev: string, hmac: string)
    ensures MembersText(SealMembers(n, prev, hmac)) == MemberText(Member("seq", Number(n)))
      + (MemberText(Member("prev_hmac", Text(prev))) + MemberText(Member("hmac", Text(hmac))))
  {
    hide MembersText, MemberText;
    var ms := SealMembers(n, prev, hmac);
    assert ms == [ms[0]] + ([ms[1]] + [ms[2]]);
    MembersTextAppend([ms[0]], [ms[1]] + [ms[2]]);
    MembersTextAppend([ms[1]], [ms[2]]);
    OneMember(ms[0]);
    OneMember(ms[1]);
    OneMember(ms[2]);
  }

  lemma PlainNames()
    ensures PlainText("seq") && PlainText("prev_hmac") && PlainText("hmac")
  {
  }

  lemma PlainMember(key: string, s: string)
    ensures PlainText(key) && PlainText(s) ==>
      MemberText(Member(key, Text(s))) == "," + ("\"" + key + "\"") + ":" + ("\"" + s + "\"")
  {
    hide PlainText, Escaped;
    if PlainText(key) && PlainText(s) {
      PlainEscaped(key);
      PlainEscaped(s);
    }
  }

  lemma NumberText(key: string, n: nat)
    ensures PlainText(key) ==> MemberText(Member(key, Number(n))) == "," + ("\"" + key + "\"") + ":" + Digits(n)
  {
    hide PlainText, Escaped, Digits;
    if PlainText(key) { PlainEscaped(key); }
  }

  lemma SealText(d: string, prev: string, hmac: string, a: string, b: string, c: string)
    requires a == "," + ("\"" + "seq" + "\"") + ":" + d
    requires b == "," + ("\"" + "prev_hmac" + "\"") + ":" + ("\"" + prev + "\"")
    requires c == "," + ("\"" + "hmac" + "\"") + ":" + ("\"" + hmac + "\"")
    ensures a + (b + c) + "}" == ",\"seq\":" + d + "," + Tail(prev, hmac)
  {
    assert a == MARKER + d;
    assert b == "," + (PREV + prev + "\"");
    assert c + "}" == "," + (HMAC + hmac + "\"}");
    TailText(prev, hmac);
    hide Tail;
    Concat(MARKER + d, b, c);
    Concat(MARKER + d + b, c, "}");
    Concat(MARKER + d, ",", PREV + prev + "\"");
    Concat(MARKER + d + ",", PREV + prev + "\"", "," + (HMAC + hmac + "\"}"));
  }

  lemma TailText(prev: string, hmac: string)
    ensures Tail(prev, hmac) == PREV + prev + "\"" + ("," + (HMAC + hmac + "\"}"))
  {
  }

  /** A sealed event is the JSON object of the members of the event, its number, the code before it and its own. */
  lemma SealedMembers(e: AuditEvent, n: nat, prev: string, hmac: string)
    requires CodeText(prev) && CodeText(hmac)
    ensures Serialized(e) != ""
    ensures SealedLine(Serialized(e), n, prev, hmac) == Braces(MembersText(Members(e) + SealMembers(n, prev, hmac)))
    ensures Visible(SealedLine(Serialized(e), n, prev, hmac))
  {
    hide Members, MembersText, Serialized, Digits, CodeText, PlainText, Visible, SealMembers;
    var t, u := MembersText(Members(e)), MembersText(SealMembers(n, prev, hmac));
    SerializedMembers(e);
    MembersSome(e);
    MembersTextStart(Members(e));
    MembersTextAppend(Members(e), SealMembers(n, prev, hmac));
    CodePlain(prev);
    CodePlain(hmac);
    SealMembersText(n, prev, hmac);
    SealedText(Serialized(e), t, u, Digits(n), prev, hmac);
    SealVisible(e, n, prev, hmac);
  }

  lemma MembersSome(e: AuditEvent)
    ensures Members(e) != []
  {
  }

  lemma SealedText(body: string, t: string, u: string, d: string, prev: string, hmac: string)
    requires t != "" && body == Braces(t) && u + "}" == ",\"seq\":" + d + "," + Tail(prev, hmac)
    ensures body[..|body| - 1] + MARKER + d + "," + Tail(prev, hmac) == Braces(t + u)
  {
    hide Tail;
    var b, x := "{" + t[1..], Tail(prev, hmac);
    assert body[..|body| - 1] == b;
    Grow(b, t, u);
    Concat(b, u, "}");
    Concat(b, MARKER + d + ",", x);
    Concat(b, MARKER + d, ",");
    Concat(b, MARKER, d);
  }

  lemma SealVisible(e: AuditEvent, n: nat, prev: string, hmac: string)
    requires PlainText(prev) && PlainText(hmac) && Serialized(e) != ""
    ensures Visible(SealedLine(Serialized(e), n, prev, hmac))
  {
    SerializedVisible(e);
    NumberOfDigits(n);
    hide Serialized, Digits;
    var b, d := Serialized(e), Digits(n);
    forall i | 0 <= i < |d| ensures d[i] >= ' ' {
      assert IsDigit(d[i]);
    }
    assert Visible(b[..|b| - 1]) && Visible(MARKER) && Visible(PREV) && Visible(HMAC) && Visible(",") && Visible("\",")
      && Visible("\"}") && Visible(prev) && Visible(hmac);
    JoinVisible(PREV, prev);
    JoinVisible(PREV + prev, "\",");
    JoinVisible(PREV + prev + "\",", HMAC);
    JoinVisible(PREV + prev + "\"," + HMAC, hmac);
    JoinVisible(PREV + prev + "\"," + HMAC + hmac, "\"}");
    var a, t := b[..|b| - 1], Tail(prev, hmac);
    hide Visible, Tail;
    JoinVisible(a, MARKER);
    JoinVisible(a + MARKER, d);
    JoinVisible(a + MARKER + d, ",");
    JoinVisible(a + MARKER + d + ",", t);
  }

  lemma JoinVisible(s: string, t: string)
    requires Visible(s) && Visible(t)
    ensures Visible(s + t)
  {
  }

  // The text determines the members ------------------------------------------------------------------------

  predicate Ends(x: string) {
    x != "" && (x[0] == ',' || x[0] == '}')
  }

  lemma NumberRead(n: int, x: string)
    requires Ends(x)
    ensures var s := Decimal(n) + x;
      && (s[0] == '-' <==> n < 0)
      && LeadingDigits(if n < 0 then s[1..] else s) == Digits(if n < 0 then -n else n)
  {
    hide Digits, LeadingDigits, Ends;
    var a := if n < 0 then -n else n;
    NumberOfDigits(a);
    NotADigit(x);
    LeadingDigitsOf(Digits(a), x);
    hide NumberOf;
    if n < 0 {
      SignRead(Digits(a), x);
    } else {
      assert IsDigit(Digits(a)[0]) && (Digits(a) + x)[0] == Digits(a)[0];
    }
  }

  lemma NotADigit(x: string)
    requires Ends(x)
    ensures x != "" && !IsDigit(x[0])
  {
  }

  lemma SignRead(d: string, x: string)
    ensures ("-" + d + x)[0] == '-' && ("-" + d + x)[1..] == d + x
  {
    Concat("-", d, x);
  }

  lemma DecimalInjective(n: int, m: int, x: string, y: string)
    requires Decimal(n) + x == Decimal(m) + y && Ends(x) && Ends(y)
    ensures n == m && x == y
  {
    hide Digits, LeadingDigits, NumberOf, Decimal, Ends;
    NumberRead(n, x);
    NumberRead(m, y);
    var a, b := if n < 0 then -n else n, if m < 0 then -m else m;
    NumberOfDigits(a);
    NumberOfDigits(b);
    TailOf(Decimal(n), x, y);
  }

  lemma TailOf(d: string, x: string, y: string)
    ensures d + x == d + y ==> x == y
  {
    if d + x == d + y {
      assert (d + x)[|d|..] == x && (d + y)[|d|..] == y;
    }
  }

  lemma {:induction false} EntriesInjective(a: seq<(string, string)>, b: seq<(string, string)>, x: string, y: string)
    requires EntriesText(a) + "}" + x == EntriesText(b) + "}" + y
    ensures a == b && x == y
  {
    var s := EntriesText(a) + "}" + x;
    if a == [] || b == [] {
      assert s[0] == (if a == [] then '}' else ',') && s[0] == (if b == [] then '}' else ',');
      assert s[1..] == x && s[1..] == y;
    } else {
      var p, q := a[1..], b[1..];
      hide Quoted, Escaped;
      EntryPeeled(a[0].0, a[0].1, EntriesText(p), x);
      EntryPeeled(b[0].0, b[0].1, EntriesText(q), y);
      QuotedInjective(a[0].0, b[0].0, ":" + (Quoted(a[0].1) + (EntriesText(p) + "}" + x)),
        ":" + (Quoted(b[0].1) + (EntriesText(q) + "}" + y)));
      TailOf(":", Quoted(a[0].1) + (EntriesText(p) + "}" + x), Quoted(b[0].1) + (EntriesText(q) + "}" + y));
      QuotedInjective(a[0].1, b[0].1, EntriesText(p) + "}" + x, EntriesText(q) + "}" + y);
      EntriesInjective(p, q, x, y);
      assert a == [a[0]] + p && b == [b[0]] + q;
    }
  }

  lemma EntryPeeled(k: string, v: string, t: string, x: string)
    ensures ("," + Quoted(k) + ":" + Quoted(v) + t + "}" + x)[1..] == Quoted(k) + (":" + (Quoted(v) + (t + "}" + x)))
  {
  }

  /** In an event the key says which kind of value there is, and the data object is not empty. */
  predicate Typed(m: Member) {
    match m.key
    case "lvl" => m.value.Number?
    case "sess" => m.value.Number?
    case "data" => m.value.Object? && m.value.entries != []
    case _ => m.value.Text?
  }

  predicate AllTyped(ms: seq<Member>) {
    forall i :: 0 <= i < |ms| ==> Typed(ms[i])
  }

  lemma ValueInjective(v: Value, w: Value, x: string, y: string)
    requires ValueText(v) + x == ValueText(w) + y && Ends(x) && Ends(y)
    requires (v.Text? && w.Text?) || (v.Number? && w.Number?)
      || (v.Object? && w.Object? && v.entries != [] && w.entries != [])
    ensures v == w && x == y
  {
    hide Escaped, Quoted, Decimal;
    match v
    case Text(s) => QuotedInjective(s, w.s, x, y);
    case Number(n) => DecimalInjective(n, w.n, x, y);
    case Object(a) =>
      var b := w.entries;
      ObjectRead(a, x);
      ObjectRead(b, y);
      TailOf("{", EntriesText(a)[1..] + "}" + x, EntriesText(b)[1..] + "}" + y);
      CommaBefore(EntriesText(a), EntriesText(b), x, y);
      EntriesInjective(a, b, x, y);
  }

  lemma ObjectRead(a: seq<(string, string)>, x: string)
    requires a != []
    ensures EntriesText(a) != "" && EntriesText(a)[0] == ','
    ensures Braces(EntriesText(a)) + x == "{" + (EntriesText(a)[1..] + "}" + x)
  {
    var t := EntriesText(a);
    assert t[0] == ',';
    hide EntriesText;
  }

  lemma CommaBefore(t: string, u: string, x: string, y: string)
    requires t != "" && u != "" && t[0] == u[0] && t[1..] + "}" + x == u[1..] + "}" + y
    ensures t + "}" + x == u + "}" + y
  {
    assert t == [t[0]] + t[1..] && u == [u[0]] + u[1..];
    assert t + "}" + x == [t[0]] + (t[1..] + "}" + x);
    assert u + "}" + y == [u[0]] + (u[1..] + "}" + y);
  }

  lemma {:induction false} MembersInjective(ms: seq<Member>, ns: seq<Member>)
    requires MembersText(ms) + "}" == MembersText(ns) + "}"
    requires AllTyped(ms) && AllTyped(ns)
    ensures ms == ns
  {
    hide MemberText, Typed;
    var s := MembersText(ms) + "}";
    if ms == [] || ns == [] {
      if ms != [] { MemberComma(ms[0]); }
      if ns != [] { MemberComma(ns[0]); }
      assert s[0] == (if ms == [] then '}' else ',') && s[0] == (if ns == [] then '}' else ',');
    } else {
      var p, q := ms[1..], ns[1..];
      var m, n := ms[0], ns[0];
      MemberPeeled(m, MembersText(p));
      MemberPeeled(n, MembersText(q));
      TextEnds(p);
      TextEnds(q);
      assert Typed(m) && Typed(n);
      hide MembersText;
      PeelInjective(m, n, MembersText(p) + "}", MembersText(q) + "}");
      MembersInjective(p, q);
      assert ms == [m] + p && ns == [n] + q;
    }
  }

  lemma MemberComma(m: Member)
    ensures MemberText(m) != "" && MemberText(m)[0] == ','
  {
  }

  lemma TextEnds(ms: seq<Member>)
    ensures Ends(MembersText(ms) + "}")
  {
    if ms != [] { MemberComma(ms[0]); }
  }

  lemma MemberPeeled(m: Member, t: string)
    ensures MemberText(m) + t + "}" == "," + (Quoted(m.key) + (":" + (ValueText(m.value) + (t + "}"))))
  {
    hide Quoted, ValueText;
  }

  lemma PeelInjective(m: Member, n: Member, x: string, y: string)
    requires Typed(m) && Typed(n) && Ends(x) && Ends(y)
    requires "," + (Quoted(m.key) + (":" + (ValueText(m.value) + x))) == ","
      + (Quoted(n.key) + (":" + (ValueText(n.value) + y)))
    ensures m == n && x == y
  {
    hide Quoted, ValueText;
    TailOf(",", Quoted(m.key) + (":" + (ValueText(m.value) + x)), Quoted(n.key) + (":" + (ValueText(n.value) + y)));
    QuotedInjective(m.key, n.key, ":" + (ValueText(m.value) + x), ":" + (ValueText(n.value) + y));
    TailOf(":", ValueText(m.value) + x, ValueText(n.value) + y);
    ValueInjective(m.value, n.value, x, y);
  }

  // The members determine the event ------------------------------------------------------------------------

  predicate Lacks(ms: seq<Member>, key: string) {
    forall i :: 0 <= i < |ms| ==> ms[i].key != key
  }

  lemma OptionalInjective(p: bool, m: Member, r: seq<Member>, q: bool, n: Member, s: seq<Member>)
    requires Optional(p, m) + r == Optional(q, n) + s && m.key == n.key && Lacks(r, m.key) && Lacks(s, m.key)
    ensures p == q && (p ==> m == n) && r == s
  {
    var all := Optional(p, m) + r;
    assert p ==> all[0] == m && all[1..] == r;
    assert q ==> all[0] == n && all[1..] == s;
    assert !p ==> all == r;
    assert !q ==> all == s;
    assert r != [] ==> r[0].key != m.key;
    assert s != [] ==> s[0].key != m.key;
    assert p <==> all != [] && all[0].key == m.key;
  }

  lemma FromCorrInjective(e: AuditEvent, f: AuditEvent)
    requires FromCorr(e) == FromCorr(f)
    ensures e.corr == f.corr && e.data == f.data
  {
    var d, g := Member("data", Object(e.data)), Member("data", Object(f.data));
    OptionalInjective(e.corr != "", Member("corr", Text(e.corr)), Optional(e.data != [], d),
      f.corr != "", Member("corr", Text(f.corr)), Optional(f.data != [], g));
    assert Optional(e.data != [], d) + [] == Optional(e.data != [], d);
    assert Optional(f.data != [], g) + [] == Optional(f.data != [], g);
    OptionalInjective(e.data != [], d, [], f.data != [], g, []);
  }

  lemma FromSrcInjective(e: AuditEvent, f: AuditEvent)
    requires FromSrc(e) == FromSrc(f)
    ensures e.src == f.src && FromCorr(e) == FromCorr(f)
  {
    hide FromCorr;
    assert FromSrc(e)[0] == Member("src", Text(e.src)) && FromSrc(f)[0] == Member("src", Text(f.src));
    assert FromSrc(e)[1..] == FromCorr(e) && FromSrc(f)[1..] == FromCorr(f);
  }

  lemma FromUserInjective(e: AuditEvent, f: AuditEvent)
    requires FromUser(e) == FromUser(f)
    ensures e.user == f.user && e.sid == f.sid && e.sess == f.sess && FromSrc(e) == FromSrc(f)
  {
    LacksKeys(e);
    LacksKeys(f);
    hide FromSrc;
    OptionalInjective(e.user != "", Member("user", Text(e.user)), FromSid(e),
      f.user != "", Member("user", Text(f.user)), FromSid(f));
    OptionalInjective(e.sid != "", Member("sid", Text(e.sid)), FromSess(e),
      f.sid != "", Member("sid", Text(f.sid)), FromSess(f));
    OptionalInjective(e.sess != 0, Member("sess", Number(e.sess)), FromSrc(e),
      f.sess != 0, Member("sess", Number(f.sess)), FromSrc(f));
  }

  lemma LacksKeys(e: AuditEvent)
    ensures Lacks(FromSrc(e), "sess") && Lacks(FromSess(e), "sid") && Lacks(FromSid(e), "user")
  {
    hide Lacks, Optional;
    LacksFromSrc(e, "sess");
    LacksFromSrc(e, "sid");
    LacksFromSrc(e, "user");
    var sid, sess := Member("sid", Text(e.sid)), Member("sess", Number(e.sess));
    LacksWith(e.sess != 0, sess, FromSrc(e), "sid");
    LacksWith(e.sess != 0, sess, FromSrc(e), "user");
    LacksWith(e.sid != "", sid, FromSess(e), "user");
  }

  lemma LacksWith(p: bool, m: Member, r: seq<Member>, key: string)
    requires Lacks(r, key) && m.key != key
    ensures Lacks(Optional(p, m) + r, key)
  {
  }

  lemma LacksFromSrc(e: AuditEvent, key: string)
    requires key != "src" && key != "corr" && key != "data"
    ensures Lacks(FromSrc(e), key)
  {
    hide Lacks;
    var corr, data := Member("corr", Text(e.corr)), Member("data", Object(e.data));
    LacksNothing(key);
    assert Optional(e.data != [], data) + [] == Optional(e.data != [], data);
    LacksWith(e.data != [], data, [], key);
    LacksWith(e.corr != "", corr, Optional(e.data != [], data), key);
    LacksWith(true, Member("src", Text(e.src)), FromCorr(e), key);
  }

  lemma LacksNothing(key: string)
    ensures Lacks([], key)
  {
  }

  /** Different events have different texts. */
  lemma SerializedInjective(e: AuditEvent, f: AuditEvent)
    requires Serialized(e) == Serialized(f)
    ensures e == f
  {
    hide Serialized, MembersText;
    SerializedMembers(e);
    SerializedMembers(f);
    MembersTyped(e);
    MembersTyped(f);
    MembersTextStart(Members(e));
    MembersTextStart(Members(f));
    SameInside(MembersText(Members(e)), MembersText(Members(f)));
    MembersInjective(Members(e), Members(f));
    SplitMembers(e, f);
    hide FromUser, FromSrc;
    FromUserInjective(e, f);
    FromSrcInjective(e, f);
    FromCorrInjective(e, f);
  }

  lemma SameInside(t: string, u: string)
    requires t != "" && u != "" && t[0] == u[0] && Braces(t) == Braces(u)
    ensures t + "}" == u + "}"
  {
    TailOf("{", t[1..] + "}", u[1..] + "}");
    assert "{" + (t[1..] + "}") == Braces(t) && "{" + (u[1..] + "}") == Braces(u);
    assert t + "}" == [t[0]] + (t[1..] + "}") && u + "}" == [u[0]] + (u[1..] + "}");
  }

  lemma TypedWith(p: bool, m: Member, r: seq<Member>)
    requires AllTyped(r) && (p ==> Typed(m))
    ensures AllTyped(Optional(p, m) + r)
  {
  }

  lemma MembersTyped(e: AuditEvent)
    ensures AllTyped(Members(e))
  {
    var data := Member("data", Object(e.data));
    assert AllTyped([]);
    hide AllTyped;
    TypedWith(e.data != [], data, []);
    assert Optional(e.data != [], data) + [] == Optional(e.data != [], data);
    TypedWith(e.corr != "", Member("corr", Text(e.corr)), Optional(e.data != [], data));
    TypedWith(true, Member("src", Text(e.src)), FromCorr(e));
    TypedWith(e.sess != 0, Member("sess", Number(e.sess)), FromSrc(e));
    TypedWith(e.sid != "", Member("sid", Text(e.sid)), FromSess(e));
    TypedWith(e.user != "", Member("user", Text(e.user)), FromSid(e));
    LeadingTyped(e, FromUser(e));
  }

  lemma LeadingTyped(e: AuditEvent, r: seq<Member>)
    requires AllTyped(r)
    ensures AllTyped(Leading(e) + r)
  {
  }

  lemma SplitMembers(e: AuditEvent, f: AuditEvent)
    requires Members(e) == Members(f)
    ensures e.id == f.id && e.ts == f.ts && e.lvl == f.lvl && e.cat == f.cat && e.act == f.act && e.sev == f.sev
    ensures e.host == f.host && FromUser(e) == FromUser(f)
  {
    hide FromUser;
    assert Members(e)[..7] == Leading(e) && Members(f)[..7] == Leading(f);
    assert Members(e)[7..] == FromUser(e) && Members(f)[7..] == FromUser(f);
    var l, k := Leading(e), Leading(f);
    assert forall i :: 0 <= i < 7 ==> l[i] == k[i];
    assert l[0] == k[0] && l[1] == k[1] && l[2] == k[2] && l[3] == k[3] && l[4] == k[4] && l[5] == k[5] && l[6] == k[6];
  }

  // The events of a chain ----------------------------------------------------------------------------------

  /** The chain seals these events in this order. */
  ghost predicate SealsEvents(h: seq<Sealed>, es: seq<AuditEvent>) {
    |h| == |es| && forall i :: 0 <= i < |h| ==> h[i].body == Serialized(es[i])
  }

  /** Two chains that end in the same code have sealed the same events, as many and in the same order, unless
      the keyed hash gives two of their texts one code. */
  lemma LastCodeBindsEvents(h: seq<Sealed>, g: seq<Sealed>, mac: string -> string, es: seq<AuditEvent>,
      fs: seq<AuditEvent>)
    requires MacLaw(mac) && Linked(h, mac) && Linked(g, mac) && LastCode(h) == LastCode(g)
    requires SealsEvents(h, es) && SealsEvents(g, fs)
    ensures es == fs || Collision(h, g)
  {
    hide MacLaw, Linked, Serialized, LastCode, Collision;
    LastCodeBinds(h, g, mac);
    if h == g {
      forall i | 0 <= i < |es| ensures es[i] == fs[i] {
        SerializedInjective(es[i], fs[i]);
      }
    }
  }
}
