/** native/UserAuditSvc/src/log_crypto.cpp: one log line encrypted and framed as text. A character stands
    for one byte. */
module LogCrypto {
  import opened Options

  const PREFIX: string := "v1:"
  const MAX_PLAIN: nat := 8192
  const NONCE_SIZE: nat := 12
  const TAG_SIZE: nat := 16

  /** AES-GCM under one key, and base64: foreign code of which only the laws below are used. */
  datatype Codec = Codec(
    encrypt: (string, string) -> (string, string),
    decrypt: (string, string, string) -> Option<string>,
    encode: string -> string,
    decode: string -> Option<string>)

  /** A ciphertext is as long as its plaintext, a tag has 16 bytes, and the two decrypt to the plaintext. */
  ghost predicate CipherLaw(c: Codec) {
    forall nonce, plain :: |nonce| == NONCE_SIZE ==> CipherLawAt(c, nonce, plain)
  }

  ghost predicate CipherLawAt(c: Codec, nonce: string, plain: string) {
    var (ciphertext, tag) := c.encrypt(nonce, plain);
    |ciphertext| == |plain| && |tag| == TAG_SIZE && c.decrypt(nonce, ciphertext, tag) == Some(plain)
  }

  /** Section 4 of RFC 4648: four characters for three bytes, padded, and none of them a line break. */
  ghost predicate Base64Law(c: Codec) {
    forall p :: p != "" ==> Base64LawAt(c, p)
  }

  ghost predicate Base64LawAt(c: Codec, p: string) {
    |c.encode(p)| == 4 * ((|p| + 2) / 3) && c.decode(c.encode(p)) == Some(p) && LineBreakFree(c.encode(p))
  }

  predicate LineBreakFree(s: string) {
    forall i :: 0 <= i < |s| ==> s[i] != '\n'
  }

  /** What the foreign calls of one encryption come to. */
  datatype Outcome = Outcome(nonce: Option<string>, encrypted: bool, encoded: bool)

  ghost predicate ValidOutcome(o: Outcome) {
    o.nonce.Some? ==> |o.nonce.value| == NONCE_SIZE
  }

  /** v1: and the base64 form of nonce, ciphertext and tag */
  function Framed(c: Codec, nonce: string, plain: string): string {
    var (ciphertext, tag) := c.encrypt(nonce, plain);
    PREFIX + c.encode(nonce + ciphertext + tag)
  }

  method EncryptLogLine(c: Codec, keyed: bool, plaintext: string, o: Outcome, encryptedLine: string)
    returns (ok: bool, line: string)
    requires CipherLaw(c) && Base64Law(c) && ValidOutcome(o)
    ensures ok <==> keyed && |plaintext| <= 8192 && o.nonce.Some? && o.encrypted && o.encoded
    ensures line == if ok then Framed(c, o.nonce.value, plaintext) else encryptedLine
  {
    line := encryptedLine;
    if !keyed || |plaintext| > MAX_PLAIN {
      return false, line;
    }
    if o.nonce.None? {
      return false, line;
    }
    var nonce := o.nonce.value;
    if !o.encrypted {
      return false, line;
    }
    var (ciphertext, tag) := c.encrypt(nonce, plaintext);
    var payload := [];
    payload := payload + nonce;
    payload := payload + ciphertext;
    payload := payload + tag;
    var encoded := if o.encoded then c.encode(payload) else "";
    assert payload == nonce + ciphertext + tag && |payload| >= NONCE_SIZE;
    assert CipherLawAt(c, nonce, plaintext) && Base64LawAt(c, payload);
    assert |c.encode(payload)| >= 4;
    if encoded == "" {
      return false, line;
    }
    line := PREFIX;
    line := line + encoded;
    ok := true;
  }

  predicate HasPrefix(s: string, p: string) {
    |p| <= |s| && s[..|p|] == p
  }

  /** The plaintext of a framed line, if it is one */
  function Decrypted(c: Codec, line: string): Option<string> {
    if !HasPrefix(line, PREFIX) then None
    else
      var payload := c.decode(line[|PREFIX|..]);
      if payload.None? || |payload.value| < NONCE_SIZE + TAG_SIZE then None
      else
        var n := |payload.value| - TAG_SIZE;
        c.decrypt(payload.value[..NONCE_SIZE], payload.value[NONCE_SIZE..n], payload.value[n..])
  }

  /** Behind v1: stand, in base64, the 12 bytes of a nonce, a ciphertext and the 16 bytes of a tag that decrypt to
      plain. */
  predicate Carries(c: Codec, line: string, plain: string) {
    && |line| >= 3 && line[..3] == "v1:" && c.decode(line[3..]).Some?
    && var p := c.decode(line[3..]).value;
    && |p| >= 28 && c.decrypt(p[..12], p[12..|p| - 16], p[|p| - 16..]) == Some(plain)
  }

  method DecryptLogLine(c: Codec, keyed: bool, encryptedLine: string, previous: string)
    returns (ok: bool, plaintext: string)
    ensures ok <==> keyed && Decrypted(c, encryptedLine).Some?
    ensures ok ==> Carries(c, encryptedLine, plaintext)
    ensures !ok && keyed ==> forall plain :: !Carries(c, encryptedLine, plain)
    ensures plaintext == if ok then Decrypted(c, encryptedLine).value else previous
  {
    plaintext := previous;
    if !keyed || !HasPrefix(encryptedLine, PREFIX) {
      return false, plaintext;
    }
    var encoded := encryptedLine[|PREFIX|..];
    var payload := c.decode(encoded);
    if payload.None? {
      return false, plaintext;
    }
    if |payload.value| < NONCE_SIZE + TAG_SIZE {
      return false, plaintext;
    }
    var ciphertextSize := |payload.value| - NONCE_SIZE - TAG_SIZE;
    var tag := NONCE_SIZE + ciphertextSize;
    var decrypted := c.decrypt(payload.value[..NONCE_SIZE], payload.value[NONCE_SIZE..tag], payload.value[tag..]);
    if decrypted.None? {
      return false, plaintext;
    }
    ok, plaintext := true, decrypted.value;
  }

  /** How long the framed form of a line is, with its line break */
  function LineLength(n: nat): nat {
    4 + 4 * ((n + 30) / 3)
  }

  /** A framed line decrypts to what it was made of, and its length follows from the plaintext's. */
  lemma FramedLine(c: Codec, nonce: string, plain: string)
    requires CipherLaw(c) && Base64Law(c) && |nonce| == NONCE_SIZE
    ensures Decrypted(c, Framed(c, nonce, plain)) == Some(plain)
    ensures |Framed(c, nonce, plain)| + 1 == LineLength(|plain|)
    ensures LineBreakFree(Framed(c, nonce, plain))
    ensures Carries(c, Framed(c, nonce, plain), plain)
    ensures var p := c.decode(Framed(c, nonce, plain)[3..]).value; |p| == |plain| + 28 && p[..12] == nonce
  {
    var (ciphertext, tag) := c.encrypt(nonce, plain);
    var payload := nonce + ciphertext + tag;
    var line := Framed(c, nonce, plain);
    assert CipherLawAt(c, nonce, plain) && Base64LawAt(c, payload);
    var n := |payload| - TAG_SIZE;
    assert payload[..NONCE_SIZE] == nonce && payload[NONCE_SIZE..n] == ciphertext && payload[n..] == tag;
    assert line[|PREFIX|..] == c.encode(payload) && line[..|PREFIX|] == PREFIX;
    forall i | 0 <= i < |line| ensures line[i] != '\n' {
      assert i < 3 ==> line[i] == PREFIX[i];
      assert i >= 3 ==> line[i] == c.encode(payload)[i - 3];
    }
  }

  /** The longest line that can be framed, and the line break after it */
  const MAX_LINE: nat := 10964

  lemma FramedLength(n: nat)
    requires n <= MAX_PLAIN
    ensures LineLength(n) <= MAX_LINE && LineLength(MAX_PLAIN) == MAX_LINE
  {
  }
}
