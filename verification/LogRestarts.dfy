/** Runs in which a process that starts again within a day loses the order of the parts and the bound on their
    size, or a line that it reports as written. */
module LogRestarts {
  import opened Options
  import opened HashChain
  import opened LogCrypto
  import opened LogFiles
  import opened EncryptedLogWriter
  import opened LogReading
  import opened LogBounds

  /** Everything that a call depends on succeeds. */
  ghost predicate Succeeds(io: Io) {
    && ValidIo(io) && FilesWork(io) && io.keys && io.hashed && io.saving == Complete && io.writing == Whole
    && io.encryption.nonce.Some? && io.encryption.encrypted && io.encryption.encoded
  }

  /** A body so long that two lines for it go past 1 + 10964 characters, and that can still be sealed and written */
  predicate LongBody(json: string) {
    Braced(json) && 7000 <= |json| <= 8000
  }

  lemma SealedLength(h: seq<Sealed>, mac: string -> string, i: nat)
    requires MacLaw(mac) && Linked(h, mac) && i < |h| && i < 9 && LongBody(h[i].body)
    ensures 7000 <= |LineOf(h[i])| <= MAX_PLAIN
  {
    assert LinkAt(h, mac, i);
    LinkedCodes(h, mac, i);
  }

  /** All that can be asked of a writer */
  ghost predicate Good(w: Writer, limit: nat)
    reads w, w.chain
  {
    w.Valid() && w.Chained() && w.Intact() && w.chain.Resumable() && w.chain.keyed && w.maxFileBytes == limit
  }

  method FirstGood(codec: Codec, mac: string -> string, limit: nat) returns (w: Writer)
    requires CipherLaw(codec) && Base64Law(codec) && MacLaw(mac)
    ensures fresh(w) && fresh(w.chain) && Good(w, limit) && w.log == [] && w.files == map[] && !w.streamOpen
  {
    hide CipherLaw, Base64Law, MacLaw, Path;
    var chain := new Chain(mac, true, None, []);
    w := new Writer(codec, "", limit, chain, map[], []);
  }

  method RestartGood(w: Writer, ghost limit: nat) returns (v: Writer)
    requires Good(w, limit)
    ensures fresh(v) && fresh(v.chain) && Good(v, limit) && v.log == w.log && v.files == w.files && !v.streamOpen
  {
    hide CipherLaw, Base64Law, MacLaw, FilesMatch, Linked, LoadedState;
    v := Restart(w);
  }

  /** A long line goes to the next part, and all of it. */
  method WriteLong(w: Writer, json: string, io: Io) returns (ghost e: Entry)
    requires Good(w, 1) && |w.log| < 8 && Succeeds(io) && LongBody(json) && (w.streamOpen ==> w.streamGood)
    modifies w, w.chain
    ensures Good(w, 1) && w.log == old(w.log) + [e] && SizesGrow(old(w.files), w.files, e)
    ensures w.streamOpen && w.streamGood && w.openDate == io.today && w.partIndex == old(w.NextPart(io.today))
    ensures e.line.Some? && e.date == io.today && e.part == w.partIndex && |e.chars| >= 7000
  {
    hide CipherLaw, Base64Law, MacLaw, FilesMatch, Tidy, Linked, LoadedState, SealedLine, Path, TextOf, NoneLater;
    hide Turn, Writer.OnCourse, Writer.Sound, Fits, Readable;
    ghost var f, log := w.files, w.log;
    var ok := w.SealAndWrite(json, io);
    ghost var n := |w.log| - 1;
    e := w.log[n];
    SealedLength(w.chain.history, w.chain.mac, n);
    assert w.log == log + [e];
    GrowBy(f, w.files, log, e);
  }

  /** The first n parts of a day have a long line each, and the others nothing. */
  ghost predicate Filled(files: map<string, string>, d: string, n: nat) {
    forall p: nat :: if p < n then Size(files, Path(d, p)) >= 7000 else Size(files, Path(d, p)) == 0
  }

  /** While the process runs, each long line fills the next part. */
  method FillNext(w: Writer, json: string, io: Io, ghost n: nat) returns (ghost e: Entry)
    requires Good(w, 1) && |w.log| < 8 && Succeeds(io) && LongBody(json) && Filled(w.files, io.today, n)
    requires if w.streamOpen then w.streamGood && w.openDate == io.today && w.partIndex + 1 == n else n == 0
    modifies w, w.chain
    ensures Good(w, 1) && w.log == old(w.log) + [e] && e.chars != "" && e.date == io.today && e.part == n
    ensures w.streamOpen && w.streamGood && w.openDate == io.today && w.partIndex == n
    ensures Filled(w.files, io.today, n + 1)
  {
    hide Good, LongBody, SizesGrow, Filled, Writer.NextPart, Succeeds;
    NextOf(w, io, n);
    ghost var f := w.files;
    e := WriteLong(w, json, io);
    FilledNext(f, w.files, e, io.today, n);
  }

  lemma NextOf(w: Writer, io: Io, n: nat)
    requires Good(w, 1) && Succeeds(io) && Filled(w.files, io.today, n)
    ensures IsDate(io.today)
    ensures w.streamOpen && w.openDate == io.today && w.partIndex + 1 == n ==> w.NextPart(io.today) == n
    ensures !w.streamOpen ==> w.NextPart(io.today) == if n == 0 then 0 else 1
  {
    hide Path, Size;
  }

  lemma FilledNext(f: map<string, string>, g: map<string, string>, e: Entry, d: string, n: nat)
    requires SizesGrow(f, g, e) && IsDate(d) && e.date == d && e.part == n && |e.chars| >= 7000 && Filled(f, d, n)
    ensures Filled(g, d, n + 1)
  {
    hide Path, Size;
    forall p: nat ensures if p < n + 1 then Size(g, Path(d, p)) >= 7000 else Size(g, Path(d, p)) == 0 {
      assert SizeGrows(f, g, e, d, p);
    }
  }

  /** The first three lines go to parts 0, 1 and 2. After the restart the fourth is behind the second, in part 1. */
  method RestartLosesOrderAndBound(codec: Codec, mac: string -> string, json: string, io: Io) returns (w: Writer)
    requires CipherLaw(codec) && Base64Law(codec) && MacLaw(mac) && LongBody(json) && Succeeds(io)
    ensures Good(w, 1) && |w.log| == 4
    ensures !Ordered(w.log) && !Bounded(w.files, w.maxFileBytes + MAX_LINE)
  {
    hide CipherLaw, Base64Law, MacLaw, Good, Ordered, Bounded, LongBody, SizesGrow, Filled, Writer.NextPart, Succeeds;
    w := FirstGood(codec, mac, 1);
    NoneFilled(w.files, io.today);
    ghost var e := FillNext(w, json, io, 0);
    e := FillNext(w, json, io, 1);
    e := FillNext(w, json, io, 2);
    w := RestartGood(w, 1);
    NextOf(w, io, 3);
    ghost var f := w.files;
    ghost var last := WriteLong(w, json, io);
    assert w.log[2] == e && w.log[3] == last;
    OutOfOrder(w.log);
    OutOfBounds(f, w.files, last, io.today);
    OneLineParts(w);
  }

  lemma OneLineParts(w: Writer)
    requires Good(w, 1)
    ensures w.maxFileBytes == 1
  {
  }

  lemma NoneFilled(files: map<string, string>, d: string)
    requires files == map[]
    ensures Filled(files, d, 0)
  {
  }

  lemma OutOfOrder(log: seq<Entry>)
    requires |log| == 4 && log[2].chars != "" && log[3].chars != "" && log[2].date == log[3].date
      && log[2].part > log[3].part
    ensures !Ordered(log)
  {
  }

  lemma OutOfBounds(f: map<string, string>, g: map<string, string>, e: Entry, d: string)
    requires Filled(f, d, 3) && SizesGrow(f, g, e) && IsDate(d) && e.date == d && e.part == 1 && |e.chars| >= 7000
    ensures !Bounded(g, 1 + MAX_LINE)
  {
    hide Path;
    assert SizeGrows(f, g, e, d, 1);
    assert Size(f, Path(d, 1)) >= 7000;
  }

  // A line that was cut short ------------------------------------------------------------------------------

  /** One call on a day of one part: what it reports, and what reaches the file */
  method WriteFirstPart(w: Writer, json: string, io: Io) returns (ok: bool, ghost e: Entry)
    requires Good(w, 100000) && |w.log| < 8 && Succeeds(io.(writing := Whole)) && LongBody(json) && !w.streamOpen
    requires Size(w.files, Path(io.today, 0)) < 100000
    modifies w, w.chain
    ensures Good(w, 100000) && w.log == old(w.log) + [e]
    ensures ok <==> io.writing == Whole
    ensures e.line.Some? == ok && |e.chars| <= MAX_LINE && (e.chars != "" ==> e.date == io.today && e.part == 0)
    ensures e.chars == Reached(true, Framed(w.codec, io.encryption.nonce.value, e.text), io.writing)
  {
    hide CipherLaw, Base64Law, MacLaw, FilesMatch, Tidy, Linked, LoadedState, SealedLine, Path, TextOf, NoneLater;
    hide Writer.OnCourse, Writer.Sound, Fits, Readable, Framed;
    ok := w.SealAndWrite(json, io);
    ghost var n := |w.log| - 1;
    e := w.log[n];
    SealedLength(w.chain.history, w.chain.mac, n);
    FramedLength(|e.text|);
  }

  /** The file has the start of the first line and behind it the second one, which is therefore no line of the file,
      although the call for it has returned true. */
  method RestartLosesLine(codec: Codec, mac: string -> string, json: string, io: Io, cut: nat)
    returns (w: Writer, ok: bool, ghost start: string)
    requires CipherLaw(codec) && Base64Law(codec) && MacLaw(mac) && LongBody(json) && Succeeds(io) && cut > 0
    ensures Good(w, 100000) && ok && |w.log| == 2 && w.log[1].line.Some? && start != ""
    ensures SplitLines(TextOf(w.files, Path(io.today, 0))) == [start + w.log[1].line.value]
  {
    hide CipherLaw, Base64Law, MacLaw, Good, LongBody, TextOf, Path, Framed, SplitLines, PartText;
    w := FirstGood(codec, mac, 100000);
    ghost var first, second;
    CutSucceeds(io, cut);
    TextLogged(w, io.today);
    NoText(io.today);
    ok, first := WriteFirstPart(w, json, io.(writing := Cut(cut)));
    TextLogged(w, io.today);
    StartOfLine(w, first, io, cut);
    OneText(first, io.today);
    assert w.log == [first];
    w := RestartGood(w, 100000);
    ok, second := WriteFirstPart(w, json, io);
    TextLogged(w, io.today);
    assert w.log == [first, second];
    StartAndLine(w, first, second, io.today);
    start := first.chars;
  }

  lemma CutSucceeds(io: Io, cut: nat)
    requires Succeeds(io)
    ensures Succeeds(io.(writing := Cut(cut)).(writing := Whole)) && Succeeds(io.(writing := Whole))
  {
    assert io.(writing := Cut(cut)).(writing := Whole) == io == io.(writing := Whole);
  }

  lemma TextLogged(w: Writer, d: string)
    requires Good(w, 100000) && IsDate(d)
    ensures TextOf(w.files, Path(d, 0)) == PartText(w.log, d, 0)
  {
    assert FileMatches(w.files, w.log, d, 0);
  }

  lemma NoText(d: string)
    ensures PartText([], d, 0) == ""
  {
  }

  lemma OneText(e: Entry, d: string)
    ensures PartText([e], d, 0) == if e.date == d && e.part == 0 then e.chars else ""
  {
    assert [e][..0] == [] && PartText([], d, 0) == "" && "" + e.chars == e.chars;
  }

  /** What is cut short of a framed line is not empty. */
  lemma StartOfLine(w: Writer, e: Entry, io: Io, cut: nat)
    requires Good(w, 100000) && Succeeds(io) && cut > 0
    requires e.chars == Reached(true, Framed(w.codec, io.encryption.nonce.value, e.text), Cut(cut))
    ensures e.chars != ""
  {
    hide Framed;
    FramedLine(w.codec, io.encryption.nonce.value, e.text);
  }

  lemma StartAndLine(w: Writer, first: Entry, second: Entry, d: string)
    requires Good(w, 100000) && w.log == [first, second] && first.line.None? && second.line.Some?
    requires first.chars != "" && first.date == d && first.part == 0 && second.date == d && second.part == 0
    ensures SplitLines(PartText(w.log, d, 0)) == [first.chars + second.line.value]
  {
    assert Readable(w.codec, w.log[0]) && Readable(w.codec, w.log[1]);
    OneText(first, d);
    assert w.log[..1] == [first];
    var s, l := first.chars, second.line.value;
    assert PartText(w.log, d, 0) == s + (l + "\n") == "" + ((s + l) + "\n");
    SplitLast("", s + l);
    NoLines();
  }
}
