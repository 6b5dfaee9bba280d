/** native/UserAuditSvc/src/hash_chain.cpp: log lines sealed into a chain of message authentication codes. */
module HashChain {
  import opened Options
  import opened EventSerializer
  import opened JsonMarkers

  // Searching strings ------------------------------------------------------------------------------------

  /** r is the first occurrence of m in s at or after a position, if there is one. */
  ghost predicate IsFirst(s: string, m: string, from: nat, r: Option<nat>) {
    match r
    case None => forall p: nat :: p >= from ==> !OccursAt(m, s, p)
    case Some(f) => f >= from && OccursAt(m, s, f) && forall p: nat :: from <= p < f ==> !OccursAt(m, s, p)
  }

  /** r is the last occurrence of m in s before a position, if there is one. */
  ghost predicate IsLast(s: string, m: string, limit: nat, r: Option<nat>) {
    match r
    case None => forall p: nat :: p < limit ==> !OccursAt(m, s, p)
    case Some(l) => l < limit && OccursAt(m, s, l) && forall p: nat :: l < p < limit ==> !OccursAt(m, s, p)
  }

  /** std::string::find */
  function Find(s: string, m: string, from: nat): (r: Option<nat>)
    ensures IsFirst(s, m, from, r)
    decreases |s| - from
  {
    if from + |m| > |s| then None
    else if OccursAt(m, s, from) then Some(from)
    else Find(s, m, from + 1)
  }

  /** std::string::rfind, of the occurrences before a limit */
  function RFind(s: string, m: string, limit: nat): (r: Option<nat>)
    ensures IsLast(s, m, limit, r)
  {
    if limit == 0 then None
    else if OccursAt(m, s, limit - 1) then Some(limit - 1)
    else RFind(s, m, limit - 1)
  }

  // Sealed lines -----------------------------------------------------------------------------------------

  const HMAC: string := "\"hmac\":\""
  const PREV: string := "\"prev_hmac\":\""

  predicate IsHex(c: char) {
    '0' <= c <= '9' || 'a' <= c <= 'f'
  }

  /** What bytes_to_hex makes of a digest of 32 bytes */
  predicate IsDigest(h: string) {
    |h| == 64 && forall i :: 0 <= i < |h| ==> IsHex(h[i])
  }

  /** The law of the keyed hash: every message has a digest. */
  ghost predicate MacLaw(mac: string -> string) {
    forall m :: IsDigest(mac(m))
  }

  predicate QuoteFree(s: string) {
    forall i :: 0 <= i < |s| ==> s[i] != '"'
  }

  /** {...}: what can be sealed */
  predicate Braced(body: string) {
    body != "" && body[0] == '{' && body[|body| - 1] == '}'
  }

  /** The chain fields in place of the closing brace */
  function SealedLine(body: string, seqNo: nat, prev: string, hmac: string): string
    requires body != ""
  {
    body[..|body| - 1] + MARKER + Digits(seqNo) + "," + Tail(prev, hmac)
  }

  function Tail(prev: string, hmac: string): string {
    PREV + prev + "\"," + HMAC + hmac + "\"}"
  }

  /** The two values that verify_json_line cuts out of a line, and the body */
  datatype Parts = Parts(body: string, prev: string, hmac: string)

  /** The text from a position up to the next quote */
  function Value(s: string, from: nat): Option<string> {
    var end := Find(s, "\"", from);
    if end.None? then None else Some(s[from..end.value])
  }

  function Cut(line: string): Option<Parts> {
    var h := RFind(line, HMAC, |line|);
    var p := RFind(line, PREV, |line|);
    if h.None? || p.None? then None
    else
      var hmac := Value(line, h.value + 8);
      var prev := Value(line, p.value + 13);
      var bodyEnd := Find(line, MARKER, 0);
      if hmac.None? || prev.None? || bodyEnd.None? then None
      else Some(Parts(line[..bodyEnd.value] + "}", prev.value, hmac.value))
  }

  /** verify_json_line, for a usable key */
  function VerifyLine(line: string, mac: string -> string): bool {
    var parts := Cut(line);
    parts.Some? && mac(parts.value.prev + "\n" + parts.value.body) != ""
    && mac(parts.value.prev + "\n" + parts.value.body) == parts.value.hmac
  }

  // Cutting a sealed line --------------------------------------------------------------------------------

  /** The characters of the chain fields by position. */
  ghost predicate TailShape(t: string, prev: string, hmac: string) {
    var n, k := |prev|, |hmac|;
    && |t| == 25 + n + k
    && (forall j :: 0 <= j < 13 ==> t[j] == PREV[j])
    && (forall j :: 13 <= j < 13 + n ==> t[j] == prev[j - 13])
    && t[13 + n] == '"' && t[14 + n] == ','
    && (forall j :: 15 + n <= j < 23 + n ==> t[j] == HMAC[j - 15 - n])
    && (forall j :: 23 + n <= j < 23 + n + k ==> t[j] == hmac[j - 23 - n])
    && t[23 + n + k] == '"' && t[24 + n + k] == '}'
  }

  lemma TailHasShape(prev: string, hmac: string)
    ensures TailShape(Tail(prev, hmac), prev, hmac)
  {
  }

  /** The characters of the field names that are quotes */
  lemma NameQuotes(j: nat)
    ensures j < 13 ==> (PREV[j] == '"' <==> j == 0 || j == 10 || j == 12)
    ensures j < 8 ==> (HMAC[j] == '"' <==> j == 0 || j == 5 || j == 7)
    ensures PREV[1] == 'p' && PREV[11] == ':' && HMAC[1] == 'h' && HMAC[6] == ':'
  {
    var p, h := PREV, HMAC;
    assert p[0] == '"' && p[1] == 'p' && p[2] == 'r' && p[3] == 'e' && p[4] == 'v' && p[5] == '_' && p[6] == 'h';
    assert p[7] == 'm' && p[8] == 'a' && p[9] == 'c' && p[10] == '"' && p[11] == ':' && p[12] == '"';
    assert h[0] == '"' && h[1] == 'h' && h[2] == 'm' && h[3] == 'a' && h[4] == 'c' && h[5] == '"' && h[6] == ':'
      && h[7] == '"';
  }

  /** Where the quotes of the tail are, and what follows each. */
  lemma TailQuotes(t: string, prev: string, hmac: string, j: nat)
    requires TailShape(t, prev, hmac) && QuoteFree(prev) && QuoteFree(hmac) && j < |t|
    ensures var n := |prev|;
      t[j] == '"' <==>
        j == 0 || j == 10 || j == 12 || j == 13 + n || j == 15 + n || j == 20 + n || j == 22 + n || j == 23 + n + |hmac|
    ensures var n := |prev|;
      t[11] == ':' && t[14 + n] == ',' && t[16 + n] == 'h' && t[21 + n] == ':'
          && t[24 + n + |hmac|] == '}'
  {
    var n := |prev|;
    NameQuotes(j);
    NameQuotes(if j >= 15 + n then j - 15 - n else 0);
  }

  /** The field's own quotes and second character, where it would stand at position q */
  lemma FieldAt(t: string, q: nat, m: string, k: nat)
    requires StartsAt(t, q, m) && k < |m|
    ensures q + k < |t| && t[q + k] == m[k]
  {
  }

  /** No later text looks like the hmac field. */
  lemma HmacFieldLast(t: string, prev: string, hmac: string, q: nat)
    requires TailShape(t, prev, hmac) && QuoteFree(prev) && QuoteFree(hmac) && q > 15 + |prev|
    ensures !StartsAt(t, q, HMAC)
  {
    NameQuotes(0);
    if StartsAt(t, q, HMAC) {
      hide TailShape, StartsAt;
      FieldAt(t, q, HMAC, 0);
      FieldAt(t, q, HMAC, 1);
      FieldAt(t, q, HMAC, 5);
      FieldAt(t, q, HMAC, 6);
      TailQuotes(t, prev, hmac, q + 5);
      TailQuotes(t, prev, hmac, q);
    }
  }

  /** No later text looks like the prev_hmac field. */
  lemma PrevFieldLast(t: string, prev: string, hmac: string, q: nat)
    requires TailShape(t, prev, hmac) && QuoteFree(prev) && QuoteFree(hmac) && q > 0
    ensures !StartsAt(t, q, PREV)
  {
    NameQuotes(0);
    NameQuotes(|prev| + 1);
    if StartsAt(t, q, PREV) {
      hide TailShape, StartsAt;
      FieldAt(t, q, PREV, 0);
      FieldAt(t, q, PREV, 1);
      FieldAt(t, q, PREV, 10);
      FieldAt(t, q, PREV, 11);
      FieldAt(t, q, PREV, if |prev| < 9 then |prev| + 1 else 0);
      TailQuotes(t, prev, hmac, q + (if |prev| < 9 then |prev| + 1 else 0));
      TailQuotes(t, prev, hmac, q + 10);
      TailQuotes(t, prev, hmac, q);
    }
  }

  lemma LastOccurrence(a: string, t: string, s: string, m: string, p: nat)
    requires s == a + t && m != "" && StartsAt(t, p, m) && forall q: nat :: q > p ==> !StartsAt(t, q, m)
    ensures RFind(s, m, |s|) == Some(|a| + p)
  {
    hide RFind, OccursAt;
    ShiftedStart(a, t, m, |a| + p);
    OccursStarts(m, s, |a| + p);
    forall q: nat | q > |a| + p ensures !OccursAt(m, s, q) {
      OccursStarts(m, s, q);
      ShiftedStart(a, t, m, q);
    }
    Inside(s, m, |a| + p);
  }

  lemma Inside(s: string, m: string, p: nat)
    requires OccursAt(m, s, p) && m != ""
    ensures p < |s|
  {
  }

  lemma ShiftedStart(a: string, t: string, m: string, q: nat)
    requires q >= |a|
    ensures StartsAt(a + t, q, m) <==> StartsAt(t, q - |a|, m)
  {
    var s := a + t;
    assert forall k :: 0 <= k < |t| ==> s[|a| + k] == t[k];
    if StartsAt(s, q, m) {
      ShiftStart(a, t, q, m);
    }
    if StartsAt(t, q - |a|, m) {
      forall k | 0 <= k < |m| ensures s[q + k] == m[k] {
        assert t[q - |a| + k] == m[k];
      }
    }
  }

  /** No quote from one position up to another, where there is one */
  ghost predicate QuoteAt(s: string, from: nat, to: nat) {
    from <= to < |s| && s[to] == '"' && forall j :: from <= j < to ==> s[j] != '"'
  }

  lemma FirstQuote(s: string, from: nat, to: nat)
    requires QuoteAt(s, from, to)
    ensures Find(s, "\"", from) == Some(to)
  {
    hide Find, OccursAt;
    var m := "\"";
    forall p: nat | from <= p <= to ensures OccursAt(m, s, p) <==> p == to {
      OccursStarts(m, s, p);
      SingleStart(s, m, p);
    }
    var r := Find(s, m, from);
    assert OccursAt(m, s, to);
    assert r.Some? && r.value <= to;
  }

  lemma SingleStart(s: string, m: string, p: nat)
    requires |m| == 1 && p < |s|
    ensures StartsAt(s, p, m) <==> s[p] == m[0]
  {
    if StartsAt(s, p, m) { FieldAt(s, p, m, 0); }
  }

  /** b up to the first marker in it */
  function Truncated(b: string): string {
    var p := Find(b, MARKER, 0);
    if p.None? then b else b[..p.value]
  }

  lemma TruncatedWhole(b: string)
    ensures !Occurs(MARKER, b) ==> Truncated(b) == b
    ensures Occurs(MARKER, b) ==> |Truncated(b)| < |b|
  {
    hide Find;
    if Occurs(MARKER, b) {
      var p: nat :| OccursAt(MARKER, b, p);
      assert Find(b, MARKER, 0).Some?;
    }
  }

  /** The marker that ends the body is the first one that the body or the seal holds: none straddles them. */
  lemma FirstMarker(b: string, rest: string, s: string)
    requires s == b + MARKER + rest
    ensures Find(s, MARKER, 0) == Some(|Truncated(b)|)
  {
    hide Find, OccursAt;
    var n := |b|;
    MarkerStands(b, rest, s);
    forall p: nat | p < n ensures OccursAt(MARKER, s, p) <==> OccursAt(MARKER, b, p) {
      OccursStarts(MARKER, s, p);
      OccursStarts(MARKER, b, p);
      MarkerInPrefix(b, rest, s, p);
    }
    forall p: nat | OccursAt(MARKER, b, p) ensures p < n {
      Inside(b, MARKER, p);
    }
    var f := Find(b, MARKER, 0);
    assert OccursAt(MARKER, s, |Truncated(b)|);
  }

  lemma MarkerStands(b: string, rest: string, s: string)
    requires s == b + MARKER + rest
    ensures OccursAt(MARKER, s, |b|)
  {
    assert s[|b|..|b| + 7] == MARKER;
  }

  lemma MarkerInPrefix(b: string, rest: string, s: string, p: nat)
    requires s == b + MARKER + rest && p < |b|
    ensures StartsAt(s, p, MARKER) <==> StartsAt(b, p, MARKER)
  {
    var n, m := |b|, MARKER;
    assert m[0] == ',' && m[1] != ',' && m[2] != ',' && m[3] != ',' && m[4] != ',' && m[5] != ',' && m[6] != ',';
    assert s[n] == m[0];
    assert forall k :: 0 <= k < n ==> s[k] == b[k];
    if StartsAt(s, p, m) {
      FieldAt(s, p, m, if n - p < 7 then n - p else 0);
    }
  }

  /** What verify_json_line cuts out of a sealed line: the chain fields, and the body up to its own first marker. */
  lemma CutOfSealed(body: string, n: nat, prev: string, hmac: string)
    requires Braced(body) && QuoteFree(prev) && QuoteFree(hmac)
    ensures Cut(SealedLine(body, n, prev, hmac)) == Some(Parts(Truncated(body[..|body| - 1]) + "}", prev, hmac))
  {
    hide Tail, Find, RFind, Digits, TailShape, Truncated, IsDigest, QuoteFree, QuoteAt, Value, IsFirst, IsLast,
      OccursAt;
    assert body != "";
    var b, t := body[..|body| - 1], Tail(prev, hmac);
    var a := b + MARKER + Digits(n) + ",";
    var s := a + t;
    TailHasShape(prev, hmac);
    LastFields(a, t, s, prev, hmac);
    assert s == b + MARKER + (Digits(n) + "," + t);
    FirstMarker(b, Digits(n) + "," + t, s);
    TailValues(a, t, s, prev, hmac, |a| + 13, |a| + 23 + |prev|);
    ValueIs(s, |a| + 13, |a| + 13 + |prev|);
    ValueIs(s, |a| + 23 + |prev|, |a| + 23 + |prev| + |hmac|);
    TruncatedPrefix(b, s);
  }

  lemma ValueIs(s: string, from: nat, to: nat)
    requires QuoteAt(s, from, to)
    ensures from <= to < |s| && Value(s, from) == Some(s[from..to])
  {
    FirstQuote(s, from, to);
    hide Find, IsFirst;
  }

  /** The last fields of the names are those of the seal. */
  lemma LastFields(a: string, t: string, s: string, prev: string, hmac: string)
    requires s == a + t && TailShape(t, prev, hmac) && QuoteFree(prev) && QuoteFree(hmac)
    ensures RFind(s, PREV, |s|) == Some(|a|) && RFind(s, HMAC, |s|) == Some(|a| + 15 + |prev|)
  {
    hide RFind, TailShape, QuoteFree, IsDigest, StartsAt;
    TailStarts(t, prev, hmac);
    forall q: nat | q > 0 ensures !StartsAt(t, q, PREV) { PrevFieldLast(t, prev, hmac, q); }
    forall q: nat | q > 15 + |prev| ensures !StartsAt(t, q, HMAC) { HmacFieldLast(t, prev, hmac, q); }
    LastOccurrence(a, t, s, PREV, 0);
    LastOccurrence(a, t, s, HMAC, 15 + |prev|);
  }

  lemma TailStarts(t: string, prev: string, hmac: string)
    requires TailShape(t, prev, hmac)
    ensures StartsAt(t, 0, PREV) && StartsAt(t, 15 + |prev|, HMAC)
  {
    forall k | 0 <= k < 8 ensures t[15 + |prev| + k] == HMAC[k] {
    }
  }

  lemma TailValues(a: string, t: string, s: string, prev: string, hmac: string, n: nat, k: nat)
    requires s == a + t && TailShape(t, prev, hmac) && QuoteFree(prev) && QuoteFree(hmac)
    requires n == |a| + 13 && k == |a| + 23 + |prev|
    ensures n + |prev| < |s| && k + |hmac| < |s|
    ensures QuoteAt(s, n, n + |prev|) && s[n..n + |prev|] == prev
    ensures QuoteAt(s, k, k + |hmac|) && s[k..k + |hmac|] == hmac
  {
    forall j | n <= j < n + |prev| ensures s[j] == prev[j - n] {
      assert s[j] == t[j - |a|];
    }
    forall j | k <= j < k + |hmac| ensures s[j] == hmac[j - k] {
      assert s[j] == t[j - |a|];
    }
    assert s[n + |prev|] == t[13 + |prev|] && s[k + |hmac|] == t[23 + |prev| + |hmac|];
  }

  lemma TruncatedPrefix(b: string, s: string)
    requires |b| <= |s| && s[..|b|] == b
    ensures |Truncated(b)| <= |s| && s[..|Truncated(b)|] == Truncated(b)
  {
    hide Find;
  }

  /** The message that is authenticated for a body */
  function Material(prev: string, body: string): string {
    prev + "\n" + body
  }

  /** A sealed line verifies exactly when what the first marker leaves of its body has the code that the line
      carries. Cutting gives back the previous code and that code, and the body exactly if it holds no marker. */
  lemma SealedVerifies(body: string, n: nat, prev: string, hmac: string, mac: string -> string)
    requires Braced(body) && QuoteFree(prev) && QuoteFree(hmac) && MacLaw(mac)
    ensures var line, b := SealedLine(body, n, prev, hmac), body[..|body| - 1];
      && (VerifyLine(line, mac) <==> mac(Material(prev, Truncated(b) + "}")) == hmac)
      && Cut(line).Some? && Cut(line).value.prev == prev && Cut(line).value.hmac == hmac
      && (Cut(line).value.body == body <==> !Occurs(MARKER, b))
  {
    hide SealedLine, Cut, QuoteFree, Truncated;
    var b := body[..|body| - 1];
    assert IsDigest(mac(Material(prev, Truncated(b) + "}")));
    CutOfSealed(body, n, prev, hmac);
    TruncatedWhole(b);
    assert b + "}" == body;
  }

  /** The body of a sealed event comes back byte for byte exactly unless a data entry after the first is named
      "seq". If it does, the line verifies with the code of the body and with no other. */
  lemma SealedEventVerifies(e: AuditEvent, n: nat, prev: string, hmac: string, mac: string -> string)
    requires QuoteFree(prev) && QuoteFree(hmac) && MacLaw(mac)
    ensures Braced(Serialized(e))
    ensures var body := Serialized(e);
      var line := SealedLine(body, n, prev, hmac);
      && (Cut(line) == Some(Parts(body, prev, hmac)) <==> !SeqAfterFirst(e.data, |e.data|))
      && (!SeqAfterFirst(e.data, |e.data|) ==> (VerifyLine(line, mac) <==> hmac == mac(Material(prev, body))))
  {
    hide SealedLine, Cut, QuoteFree, MacLaw, VerifyLine, SeqAfterFirst, EventTokens, JsonText, Truncated;
    EventBraced(e);
    EventMarker(e);
    var body := Serialized(e);
    assert body[..|body| - 1] == JsonText(EventTokens(e));
    SealedVerifies(body, n, prev, hmac, mac);
    TruncatedWhole(body[..|body| - 1]);
    assert body[..|body| - 1] + "}" == body;
  }

  lemma EventBraced(e: AuditEvent)
    ensures Braced(Serialized(e))
  {
    hide EventTokens, JsonText;
    EventKeys(e);
    FirstToken(EventTokens(e));
  }

  lemma FirstToken(ts: seq<Token>)
    requires ts != [] && ts[0] == Raw("{")
    ensures JsonText(ts) != "" && JsonText(ts)[0] == '{'
  {
  }

  // The saved state --------------------------------------------------------------------------------------

  predicate IsSpace(c: char) {
    c == ' ' || '\t' <= c <= '\r'
  }

  predicate IsDigit(c: char) {
    '0' <= c <= '9'
  }

  function SkipSpace(s: string): string {
    if s != "" && IsSpace(s[0]) then SkipSpace(s[1..]) else s
  }

  /** The characters before the first white space */
  function Word(s: string): string {
    if s == "" || IsSpace(s[0]) then "" else [s[0]] + Word(s[1..])
  }

  function LeadingDigits(s: string): (d: string)
    ensures |d| <= |s| && forall i :: 0 <= i < |d| ==> IsDigit(d[i])
  {
    if s == "" || !IsDigit(s[0]) then "" else [s[0]] + LeadingDigits(s[1..])
  }

  function NumberOf(d: string): nat
    requires forall i :: 0 <= i < |d| ==> IsDigit(d[i])
  {
    if d == "" then 0
    else
      var c := d[|d| - 1];
      assert IsDigit(c);
      10 * NumberOf(d[..|d| - 1]) + (c as int - '0' as int)
  }

  const SEQ_LIMIT: nat := 0x1_0000_0000_0000_0000

  type SeqNumber = n: nat | n < SEQ_LIMIT

  /** What load_state makes of the state file. */
  function LoadedState(file: Option<string>): (SeqNumber, string) {
    if file.None? then (0, "genesis")
    else
      var s := SkipSpace(file.value);
      var d := LeadingDigits(s);
      if d == "" || NumberOf(d) >= SEQ_LIMIT then (0, "genesis")
      else
        var prev := Word(SkipSpace(s[|d|..]));
        (NumberOf(d), if prev == "" then "genesis" else prev)
  }

  function StateText(n: nat, prev: string): (r: string)
    ensures r != ""
  {
    Digits(n) + " " + prev
  }

  /** What becomes of a save: the file cannot be opened, or it is emptied and then only so many characters
      of the state reach it, or all of them do. */
  datatype Saving = Unopened | Interrupted(count: nat) | Complete

  function SavedFile(file: Option<string>, text: string, saving: Saving): Option<string>
    requires text != ""
  {
    match saving
    case Unopened => file
    case Interrupted(count) => Some(text[..if count < |text| then count else |text| - 1])
    case Complete => Some(text)
  }

  lemma {:induction false} NumberOfDigits(n: nat)
    ensures forall i :: 0 <= i < |Digits(n)| ==> IsDigit(Digits(n)[i])
    ensures Digits(n) != "" && NumberOf(Digits(n)) == n && (n > 0 ==> Digits(n)[0] != '0')
  {
    if n >= 10 {
      NumberOfDigits(n / 10);
      var d := Digits(n);
      assert d[..|d| - 1] == Digits(n / 10);
    } else {
      assert Digits(n)[..0] == "";
    }
  }

  lemma {:induction false} LeadingDigitsOf(d: string, rest: string)
    requires forall i :: 0 <= i < |d| ==> IsDigit(d[i])
    requires rest == "" || !IsDigit(rest[0])
    ensures LeadingDigits(d + rest) == d
  {
    var s := d + rest;
    if d == "" {
      assert s == rest;
    } else {
      LeadingDigitsOf(d[1..], rest);
      assert s[1..] == d[1..] + rest;
    }
  }

  /** 10^k */
  function Ten(k: nat): nat {
    if k == 0 then 1 else 10 * Ten(k - 1)
  }

  lemma {:induction false} DigitsLength(n: nat, k: nat)
    requires k > 0 && n < Ten(k)
    ensures |Digits(n)| <= k
  {
    if n >= 10 { DigitsLength(n / 10, k - 1); }
  }

  /** Sealing a line in a chain makes it no more than 180 characters longer. */
  lemma SealedLength(h: seq<Sealed>, mac: string -> string, i: nat)
    requires MacLaw(mac) && Linked(h, mac) && i < |h| < SEQ_LIMIT
    ensures h[i].body != "" && |LineOf(h[i])| <= |h[i].body| + 180
  {
    hide MacLaw, Digits, Ten;
    assert LinkAt(h, mac, i);
    LinkedCodes(h, mac, i);
    var n, k := h[i].seqNo, 20;
    TenTwenty();
    DigitsLength(n, k);
  }

  lemma TenTwenty()
    ensures Ten(20) == 100_000_000_000_000_000_000
  {
    assert Ten(10) == 10_000_000_000;
  }

  // The number in a sealed line ----------------------------------------------------------------------------

  /** The number after the last marker of a line */
  function LineNumber(line: string): Option<nat> {
    var p := RFind(line, MARKER, |line|);
    if p.None? then None else Some(NumberOf(LeadingDigits(line[p.value + 7..])))
  }

  /** After the marker of a seal there is no other. */
  lemma NoLaterMarker(d: string, t: string, prev: string, hmac: string, q: nat)
    requires TailShape(t, prev, hmac) && QuoteFree(prev) && QuoteFree(hmac) && q > 0
    requires forall i :: 0 <= i < |d| ==> IsDigit(d[i])
    ensures !StartsAt(MARKER + d + "," + t, q, MARKER)
  {
    hide TailShape, StartsAt;
    var m, r := MARKER, MARKER + d + ",";
    var s := r + t;
    MarkerText();
    TailSecond(t, prev, hmac);
    if StartsAt(s, q, m) {
      FieldAt(s, q, m, 0);
      FieldAt(s, q, m, 1);
      FieldAt(s, q, m, 2);
      if q >= |r| {
        InTail(r, t, q);
        TailQuotes(t, prev, hmac, q + 1 - |r|);
      } else if q < |r| - 1 {
        HeadComma(d, q);
      } else {
        LastOfHead(r, t);
      }
    }
  }

  lemma InTail(r: string, t: string, q: nat)
    requires r != "" && |r| <= q && q + 2 < |r + t|
    ensures (r + t)[q] == t[q - |r|] && (r + t)[q + 1] == t[q + 1 - |r|] && (r + t)[q + 2] == t[q + 2 - |r|]
  {
  }

  lemma LastOfHead(r: string, t: string)
    requires r != "" && |t| >= 2
    ensures (r + t)[|r| + 1] == t[1]
  {
  }

  lemma MarkerText()
    ensures var m := MARKER; m[0] == ',' && m[1] == '"' && m[2] == 's'
    ensures var m := MARKER; forall k :: 0 < k < 7 ==> m[k] != ','
  {
    var m := MARKER;
    assert m[1] == '"' && m[2] == 's' && m[3] == 'e' && m[4] == 'q' && m[5] == '"' && m[6] == ':';
  }

  /** Behind the comma that a marker begins with there is none before the one after the digits. */
  lemma HeadComma(d: string, q: nat)
    requires 0 < q < 7 + |d| && forall i :: 0 <= i < |d| ==> IsDigit(d[i])
    ensures (MARKER + d + ",")[q] != ','
  {
    MarkerText();
    var m, s := MARKER, MARKER + d + ",";
    assert s[q] == if q < 7 then m[q] else d[q - 7];
  }

  lemma TailSecond(t: string, prev: string, hmac: string)
    requires TailShape(t, prev, hmac)
    ensures |t| == 25 + |prev| + |hmac| && t[1] == 'p'
    ensures t[9] != ',' && t[11] == ':' && t[14 + |prev|] == ',' && t[21 + |prev|] == ':'
  {
    NameQuotes(1);
    var p := PREV;
    assert p[9] == 'c';
  }

  /** A sealed line carries the number that it was sealed with. */
  lemma SealedNumber(body: string, n: nat, prev: string, hmac: string)
    requires Braced(body) && QuoteFree(prev) && QuoteFree(hmac)
    ensures LineNumber(SealedLine(body, n, prev, hmac)) == Some(n)
  {
    hide Tail, RFind, Digits, TailShape, QuoteFree, LeadingDigits, NumberOf, StartsAt;
    assert body != "";
    var b, d, t := body[..|body| - 1], Digits(n), Tail(prev, hmac);
    var r := MARKER + d + "," + t;
    var s := SealedLine(body, n, prev, hmac);
    assert s == b + r;
    TailHasShape(prev, hmac);
    NumberOfDigits(n);
    MarkerFirst(d + "," + t);
    assert MARKER + (d + "," + t) == r;
    forall q: nat | q > 0 ensures !StartsAt(r, q, MARKER) { NoLaterMarker(d, t, prev, hmac, q); }
    LastOccurrence(b, r, s, MARKER, 0);
    LeadingDigitsOf(d, "," + t);
    assert s[|b| + 7..] == d + ("," + t);
  }

  lemma MarkerFirst(x: string)
    ensures StartsAt(MARKER + x, 0, MARKER)
  {
  }

  /** The lines of a chain are numbered from 1. */
  lemma HistoryNumbers(h: seq<Sealed>, mac: string -> string, i: nat)
    requires MacLaw(mac) && Linked(h, mac) && i < |h|
    ensures h[i].body != "" && LineNumber(LineOf(h[i])) == Some(i + 1)
  {
    hide MacLaw, SealedLine, LineNumber, Material;
    assert LinkAt(h, mac, i);
    LinkedCodes(h, mac, i);
    CodeQuoteFree(h[i].prev);
    CodeQuoteFree(h[i].hmac);
    SealedNumber(h[i].body, h[i].seqNo, h[i].prev, h[i].hmac);
  }

  predicate Spaceless(s: string) {
    s != "" && forall i :: 0 <= i < |s| ==> !IsSpace(s[i])
  }

  /** White space of the C locale: blank, tab, line feed, vertical tab, form feed, carriage return */
  predicate White(s: string) {
    forall i :: 0 <= i < |s| ==> s[i] as int == 32 || 9 <= s[i] as int <= 13
  }

  lemma {:induction false} SkipWhite(w: string, s: string)
    requires White(w) && (s == "" || !IsSpace(s[0]))
    ensures SkipSpace(w + s) == s
  {
    if w != "" {
      SkipWhite(w[1..], s);
      assert (w + s)[1..] == w[1..] + s;
    } else {
      assert w + s == s;
    }
  }

  lemma {:induction false} WordBefore(w: string, s: string)
    requires (forall i :: 0 <= i < |w| ==> !IsSpace(w[i])) && (s == "" || IsSpace(s[0]))
    ensures Word(w + s) == w
  {
    if w != "" {
      WordBefore(w[1..], s);
      assert (w + s)[1..] == w[1..] + s;
    } else {
      assert w + s == s;
    }
  }

  /** A number and a code are found with white space before, between and after them. */
  lemma LoadedStateWhite(before: string, n: nat, gap: string, prev: string, after: string)
    requires White(before) && White(gap) && White(after) && gap != "" && n < SEQ_LIMIT && Spaceless(prev)
    ensures LoadedState(Some(before + (Digits(n) + (gap + (prev + after))))) == (n, prev)
  {
    hide Digits, SkipSpace, Word, LeadingDigits, NumberOf;
    NumberOfDigits(n);
    var d, rest := Digits(n), gap + (prev + after);
    assert IsDigit(d[0]) && (d + rest)[0] == d[0];
    SkipWhite(before, d + rest);
    LeadingDigitsOf(d, rest);
    assert (d + rest)[|d|..] == rest && (prev + after)[0] == prev[0];
    SkipWhite(gap, prev + after);
    WordBefore(prev, after);
  }

  /** Loading gives back what was saved. */
  lemma LoadedStateText(n: nat, prev: string)
    requires n < SEQ_LIMIT && Spaceless(prev)
    ensures LoadedState(Some(StateText(n, prev))) == (n, prev)
  {
    hide LoadedState, Digits;
    var d := Digits(n);
    assert "" + (d + (" " + (prev + ""))) == d + " " + prev;
    LoadedStateWhite("", n, " ", prev, "");
  }

  /** A file with a number alone starts after it with the code of an empty chain; without a file, without a number or
      with one of more than 64 bits the chain starts again. */
  lemma LoadedStateEdges(n: nat, rest: string)
    requires rest == "" || !IsDigit(rest[0])
    ensures LoadedState(None) == (0, "genesis")
    ensures n < SEQ_LIMIT ==> LoadedState(Some(Digits(n))) == (n, "genesis")
    ensures n >= SEQ_LIMIT ==> LoadedState(Some(Digits(n) + rest)) == (0, "genesis")
    ensures (rest == "" || !IsSpace(rest[0])) ==> LoadedState(Some(rest)) == (0, "genesis")
  {
    hide Digits;
    NumberOfDigits(n);
    var d := Digits(n);
    assert d + "" == d && d[|d|..] == "";
    assert (d + rest)[0] == d[0];
    LeadingDigitsOf(d, rest);
    LeadingDigitsOf(d, "");
  }

  // The chain --------------------------------------------------------------------------------------------

  /** A line that has been sealed */
  datatype Sealed = Sealed(body: string, seqNo: nat, prev: string, hmac: string)

  /** Record i carries the next number and the code of the record before it, and authenticates both its
      body and that code. */
  ghost predicate LinkAt(h: seq<Sealed>, mac: string -> string, i: nat)
    requires i < |h|
  {
    && h[i].seqNo == i + 1
    && h[i].prev == LastCode(h[..i])
    && h[i].hmac == mac(Material(h[i].prev, h[i].body))
    && Braced(h[i].body)
  }

  ghost predicate Linked(h: seq<Sealed>, mac: string -> string) {
    forall i :: 0 <= i < |h| ==> LinkAt(h, mac, i)
  }

  ghost function LastCode(h: seq<Sealed>): string {
    if h == [] then "genesis" else h[|h| - 1].hmac
  }

  function LineOf(r: Sealed): string
    requires r.body != ""
  {
    SealedLine(r.body, r.seqNo, r.prev, r.hmac)
  }

  lemma LinkedExtend(h: seq<Sealed>, mac: string -> string, body: string)
    requires Linked(h, mac) && Braced(body)
    ensures Linked(h + [Sealed(body, |h| + 1, LastCode(h), mac(Material(LastCode(h), body)))], mac)
  {
    var g := h + [Sealed(body, |h| + 1, LastCode(h), mac(Material(LastCode(h), body)))];
    forall i | 0 <= i < |g| ensures LinkAt(g, mac, i) {
      if i < |h| {
        assert LinkAt(h, mac, i);
        assert g[..i] == h[..i];
      } else {
        assert g[..i] == h;
      }
    }
  }

  // What the chain is for --------------------------------------------------------------------------------

  /** A code, or the start of the chain: no quote and no line break in it */
  predicate CodeText(s: string) {
    s == "genesis" || IsDigest(s)
  }

  lemma LinkedCodes(h: seq<Sealed>, mac: string -> string, i: nat)
    requires MacLaw(mac) && Linked(h, mac) && i < |h|
    ensures CodeText(h[i].prev) && IsDigest(h[i].hmac)
  {
    assert LinkAt(h, mac, i);
    assert IsDigest(mac(Material(h[i].prev, h[i].body)));
    if i > 0 {
      var r := h[i - 1];
      assert LinkAt(h, mac, i - 1);
      assert IsDigest(mac(Material(r.prev, r.body)));
    }
  }

  /** Every sealed event of a chain verifies, whatever the other lines are. */
  lemma HistoryVerifies(h: seq<Sealed>, mac: string -> string, i: nat, e: AuditEvent)
    requires MacLaw(mac) && Linked(h, mac) && i < |h|
    requires h[i].body == Serialized(e) && !SeqAfterFirst(e.data, |e.data|)
    ensures VerifyLine(LineOf(h[i]), mac)
  {
    hide MacLaw, SeqAfterFirst, Serialized, VerifyLine, SealedLine, Material, Cut;
    assert LinkAt(h, mac, i);
    LinkedCodes(h, mac, i);
    CodeQuoteFree(h[i].prev);
    CodeQuoteFree(h[i].hmac);
    SealedEventVerifies(e, h[i].seqNo, h[i].prev, h[i].hmac, mac);
  }

  lemma CodeQuoteFree(s: string)
    requires CodeText(s)
    ensures QuoteFree(s) && forall i :: 0 <= i < |s| ==> s[i] != '\n'
  {
    var g := "genesis";
    assert g[0] == 'g' && g[1] == 'e' && g[2] == 'n' && g[3] == 'e' && g[4] == 's' && g[5] == 'i' && g[6] == 's';
    forall i | 0 <= i < |s| ensures s[i] != '\n' {
      assert s == g || IsHex(s[i]);
    }
  }

  /** The line break makes the authenticated text one of a kind. */
  lemma MaterialInjective(p: string, b: string, q: string, c: string)
    requires CodeText(p) && CodeText(q) && Material(p, b) == Material(q, c)
    ensures p == q && b == c
  {
    CodeQuoteFree(p);
    CodeQuoteFree(q);
    var m, n := Material(p, b), Material(q, c);
    assert m[|p|] == '\n' && n[|q|] == '\n';
    assert forall i :: 0 <= i < |p| ==> m[i] == p[i];
    assert forall i :: 0 <= i < |q| ==> n[i] == q[i];
    assert |p| == |q|;
    assert m[..|p|] == p && n[..|q|] == q && m[|p| + 1..] == b && n[|q| + 1..] == c;
  }

  lemma LinkedPrefix(h: seq<Sealed>, mac: string -> string, n: nat)
    requires Linked(h, mac) && n < |h|
    ensures Linked(h[..n], mac) && LastCode(h[..n]) == h[n].prev && h[n].seqNo == n + 1
  {
    assert LinkAt(h, mac, n);
    forall i | 0 <= i < n ensures LinkAt(h[..n], mac, i) {
      assert LinkAt(h, mac, i);
      assert h[..n][..i] == h[..i];
    }
  }

  /** The authenticated texts of two records differ and their codes do not. */
  ghost predicate Collide(r: Sealed, s: Sealed) {
    Material(r.prev, r.body) != Material(s.prev, s.body) && r.hmac == s.hmac
  }

  ghost predicate Collision(h: seq<Sealed>, g: seq<Sealed>) {
    exists r, s :: r in h && s in g && Collide(r, s)
  }

  /** Two chains that end in the same code are the same chain, of one length and record by record, unless the
      keyed hash gives two of their texts one code. */
  lemma {:induction false} LastCodeBinds(h: seq<Sealed>, g: seq<Sealed>, mac: string -> string)
    requires MacLaw(mac) && Linked(h, mac) && Linked(g, mac) && LastCode(h) == LastCode(g)
    ensures h == g || Collision(h, g)
    decreases |h|
  {
    hide MacLaw, Material, Linked, Collide, Collision, LastCode;
    LastCodeText(h, mac);
    LastCodeText(g, mac);
    if h != [] && g != [] {
      var m, n := |h| - 1, |g| - 1;
      if Collide(h[m], g[n]) {
        CollisionIn(h, g, m, n);
      } else {
        LinkedPrefix(h, mac, m);
        LinkedPrefix(g, mac, n);
        SameRecord(h, g, mac, m, n);
        LastCodeBinds(h[..m], g[..n], mac);
        if h[..m] == g[..n] {
          assert h == h[..m] + [h[m]] && g == g[..n] + [g[n]];
        } else {
          CollisionGrows(h, g, m, n);
        }
      }
    }
  }

  /** The last code is that of the last record, and 64 digits long; that of the empty chain is not. */
  lemma LastCodeText(h: seq<Sealed>, mac: string -> string)
    requires MacLaw(mac) && Linked(h, mac)
    ensures |LastCode(h)| == if h == [] then 7 else 64
    ensures h != [] ==> LastCode(h) == h[|h| - 1].hmac
  {
    hide MacLaw, Linked;
    if h != [] { LinkedCodes(h, mac, |h| - 1); }
  }

  /** Records with one code that do not collide have one previous code and one body. */
  lemma SameRecord(h: seq<Sealed>, g: seq<Sealed>, mac: string -> string, m: nat, n: nat)
    requires MacLaw(mac) && Linked(h, mac) && Linked(g, mac) && m < |h| && n < |g|
    requires h[m].hmac == g[n].hmac && !Collide(h[m], g[n])
    ensures h[m].prev == g[n].prev && h[m].body == g[n].body
  {
    hide MacLaw, Material, Linked;
    LinkedCodes(h, mac, m);
    LinkedCodes(g, mac, n);
    MaterialInjective(h[m].prev, h[m].body, g[n].prev, g[n].body);
  }

  lemma CollisionIn(h: seq<Sealed>, g: seq<Sealed>, m: nat, n: nat)
    requires m < |h| && n < |g| && Collide(h[m], g[n])
    ensures Collision(h, g)
  {
  }

  lemma CollisionGrows(h: seq<Sealed>, g: seq<Sealed>, m: nat, n: nat)
    requires m <= |h| && n <= |g| && Collision(h[..m], g[..n])
    ensures Collision(h, g)
  {
    hide Collide;
    var r, s :| r in h[..m] && s in g[..n] && Collide(r, s);
    assert r in h && s in g;
  }

  /** The number of a sealed line is not authenticated: with any other in its place the line verifies as before. */
  lemma NumberNotAuthenticated(body: string, m: nat, n: nat, prev: string, hmac: string, mac: string -> string)
    requires Braced(body) && QuoteFree(prev) && QuoteFree(hmac) && MacLaw(mac)
    ensures VerifyLine(SealedLine(body, m, prev, hmac), mac) <==> VerifyLine(SealedLine(body, n, prev, hmac), mac)
  {
    hide SealedLine, Cut, QuoteFree, MacLaw, VerifyLine, Material, Occurs, Truncated;
    SealedVerifies(body, m, prev, hmac, mac);
    SealedVerifies(body, n, prev, hmac, mac);
  }

  lemma AssembledLine(b: string, d: string, prev: string, hmac: string)
    ensures b + (",\"seq\":" + d) + (",\"prev_hmac\":\"" + prev + "\"") + (",\"hmac\":\"" + hmac + "\"}")
      == b + MARKER + d + "," + Tail(prev, hmac)
  {
  }

  /** A new object goes on from a state file exactly if the state was written to it completely; a file that
      could not be opened is still that of an earlier number. */
  lemma SavedState(file: Option<string>, n: nat, h: string, saving: Saving)
    requires n < SEQ_LIMIT && IsDigest(h) && (saving == Unopened ==> LoadedState(file).0 != n)
    ensures LoadedState(SavedFile(file, StateText(n, h), saving)) == (n, h) <==> saving == Complete
  {
    if saving == Complete {
      LoadedStateText(n, h);
    } else if saving.Interrupted? {
      var text := StateText(n, h);
      InterruptedState(n, h, if saving.count < |text| then saving.count else |text| - 1);
    }
  }

  lemma InterruptedState(n: nat, h: string, k: nat)
    requires IsDigest(h) && k < |StateText(n, h)|
    ensures LoadedState(Some(StateText(n, h)[..k])).1 != h
  {
    hide Digits;
    NumberOfDigits(n);
    var m := if k < |Digits(n)| then k else |Digits(n)|;
    var d, s := Digits(n)[..m], StateText(n, h)[..k];
    var rest := s[m..];
    assert s == d + rest && (rest == "" || (rest[0] == ' ' && |rest| <= |h|));
    assert d != "" ==> IsDigit(d[0]) && SkipSpace(s) == s;
    LeadingDigitsOf(d, rest);
    SkippedLength(if rest == "" then rest else rest[1..]);
    assert s[|d|..] == rest;
  }

  lemma {:induction false} SkippedLength(s: string)
    ensures |Word(SkipSpace(s))| <= |s|
  {
    if s != "" {
      if IsSpace(s[0]) { SkippedLength(s[1..]); } else { WordLength(s); }
    }
  }

  lemma {:induction false} WordLength(s: string)
    ensures |Word(s)| <= |s|
  {
    if s != "" && !IsSpace(s[0]) { WordLength(s[1..]); }
  }

  class Chain {
    const mac: string -> string
    const keyed: bool  // a key of 32 bytes was given
    var seqNo: SeqNumber
    var prevHmac: string
    var file: Option<string>  // the state file, outlives the object
    ghost var history: seq<Sealed>

    constructor (mac: string -> string, keyed: bool, file: Option<string>, ghost history: seq<Sealed>)
      ensures this.mac == mac && this.keyed == keyed && this.file == file && this.history == history
      ensures seqNo == 0 && prevHmac == "genesis"
    {
      this.mac, this.keyed, this.file, this.history := mac, keyed, file, history;
      seqNo, prevHmac := 0, "genesis";
    }

    /** The history is a chain and the object stands at its end. */
    ghost predicate Valid()
      reads this
    {
      && MacLaw(mac) && |history| < SEQ_LIMIT && Linked(history, mac)
      && seqNo == |history| && prevHmac == LastCode(history)
    }

    /** The state file stands at the end of the history: a new object can go on from it. */
    ghost predicate Resumable()
      reads this
    {
      LoadedState(file) == (|history|, LastCode(history))
    }

    /** Starts an object: the chain goes on exactly if the state file stands at its end. */
    method Initialize() returns (ok: bool)
      modifies this`seqNo, this`prevHmac
      ensures ok == keyed
      ensures keyed ==> (seqNo, prevHmac) == LoadedState(file)
      ensures keyed && MacLaw(mac) && |history| < SEQ_LIMIT && Linked(history, mac) ==> (Valid() <==> Resumable())
    {
      hide LoadedState, Linked;
      ok := keyed;
      if keyed {
        LoadState();
      }
    }

    method LoadState()
      modifies this`seqNo, this`prevHmac
      ensures (seqNo, prevHmac) == LoadedState(file)
    {
      var state := LoadedState(file);
      seqNo, prevHmac := state.0, state.1;
    }

    /** Opening the file empties it before the state is written. */
    method SaveState(saving: Saving)
      modifies this`file
      ensures file == SavedFile(old(file), StateText(seqNo, prevHmac), saving)
    {
      if saving == Unopened {
        return;
      }
      var text := StateText(seqNo, prevHmac);
      file := Some("");
      match saving
      case Interrupted(count) => file := Some(text[..if count < |text| then count else |text| - 1]);
      case Complete => file := Some(text);
    }

    /** available: whether the platform's hash functions succeed. */
    method ComputeHmac(prev: string, body: string, available: bool) returns (hmac: string)
      ensures hmac == if keyed && available then mac(Material(prev, body)) else ""
    {
      if !keyed || !available {
        return "";
      }
      hmac := mac(Material(prev, body));
    }

    /** Seals a line with the next number, whether or not the state file could be saved. What cannot be
        sealed changes nothing. An object at the end of the chain stays there, and then a new one can go on
        from the state file exactly if that was saved. */
    method SealJsonLine(json: string, available: bool, saving: Saving) returns (line: string)
      requires MacLaw(mac)
      modifies this
      ensures var hmac := mac(Material(old(prevHmac), json));
        if Braced(json) && keyed && available then
          var r := Sealed(json, (old(seqNo) + 1) % SEQ_LIMIT, old(prevHmac), hmac);
          && history == old(history) + [r] && line == LineOf(r) && line != ""
          && (seqNo, prevHmac) == (r.seqNo, hmac)
          && file == SavedFile(old(file), StateText(seqNo, hmac), saving)
        else line == "" && history == old(history) && (seqNo, prevHmac, file) == old((seqNo, prevHmac, file))
      ensures line != "" <==> json != "" && json[0] == '{' && json[|json| - 1] == '}' && keyed && available
      ensures line != "" && QuoteFree(old(prevHmac)) ==>
        LineNumber(line) == Some((old(seqNo) + 1) % 0x1_0000_0000_0000_0000)
      ensures old(Valid()) && |history| < SEQ_LIMIT ==> Valid()
      ensures old(Valid()) && |history| < SEQ_LIMIT && line != "" && (saving == Unopened ==> old(Resumable())) ==>
        (Resumable() <==> saving == Complete)
    {
      hide StateText, LoadedState, SealedLine, Material, Linked, SavedFile, LineNumber, QuoteFree;
      if json == "" || json[0] != '{' || json[|json| - 1] != '}' {
        return "";
      }
      seqNo := (seqNo + 1) % SEQ_LIMIT;
      var hmac := ComputeHmac(prevHmac, json, available);
      assert IsDigest(mac(Material(prevHmac, json)));
      if hmac == "" {
        seqNo := (seqNo + SEQ_LIMIT - 1) % SEQ_LIMIT;
        return "";
      }
      line := Assemble(json, hmac);
      CodeQuoteFree(hmac);
      if Linked(history, mac) {
        LinkedExtend(history, mac, json);
      }
      history := history + [Sealed(json, seqNo, prevHmac, hmac)];
      prevHmac := hmac;
      ghost var before := file;
      SaveState(saving);
      if saving == Unopened ==> LoadedState(before).0 != seqNo {
        SavedState(before, seqNo, prevHmac, saving);
      }
    }

    /** Whether a line carries the code of its body and its previous code. */
    method VerifyJsonLine(jsonLine: string, available: bool) returns (ok: bool)
      ensures ok <==> keyed && available && VerifyLine(jsonLine, mac)
    {
      hide Find, RFind, IsLast;
      var hmacPos := RFind(jsonLine, HMAC, |jsonLine|);
      var prevPos := RFind(jsonLine, PREV, |jsonLine|);
      if hmacPos.None? || prevPos.None? {
        return false;
      }
      var hmacStart := hmacPos.value + 8;
      var hmacEnd := Find(jsonLine, "\"", hmacStart);
      if hmacEnd.None? {
        return false;
      }
      var prevStart := prevPos.value + 13;
      var prevEnd := Find(jsonLine, "\"", prevStart);
      if prevEnd.None? {
        return false;
      }
      var expected := jsonLine[hmacStart..hmacEnd.value];
      var prev := jsonLine[prevStart..prevEnd.value];
      var bodyEnd := Find(jsonLine, MARKER, 0);
      if bodyEnd.None? {
        return false;
      }
      var body := jsonLine[..bodyEnd.value] + "}";
      var actual := ComputeHmac(prev, body, available);
      ok := actual != "" && actual == expected;
    }

    /** The sealed line: the body without its closing brace, then the chain fields */
    method Assemble(json: string, hmac: string) returns (sealed: string)
      requires Braced(json)
      ensures sealed == SealedLine(json, seqNo, prevHmac, hmac) && sealed != ""
      ensures QuoteFree(prevHmac) && QuoteFree(hmac) ==> LineNumber(sealed) == Some(seqNo)
    {
      hide LineNumber, QuoteFree, Digits;
      sealed := json[..|json| - 1];
      sealed := sealed + (",\"seq\":" + Digits(seqNo));
      sealed := sealed + (",\"prev_hmac\":\"" + prevHmac + "\"");
      sealed := sealed + (",\"hmac\":\"" + hmac + "\"}");
      AssembledLine(json[..|json| - 1], Digits(seqNo), prevHmac, hmac);
      if QuoteFree(prevHmac) && QuoteFree(hmac) {
        SealedNumber(json, seqNo, prevHmac, hmac);
      }
    }
  }
}
