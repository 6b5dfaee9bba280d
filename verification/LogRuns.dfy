/** Whole runs of the log writer: lines and restarts in any order. */
module LogRuns {
  import opened Options
  import opened HashChain
  import opened LogCrypto
  import opened LogFiles
  import opened EncryptedLogWriter
  import opened LogReading
  import opened LogBounds

  /** A call that writes a line, or the end of the process and the start of the next one */
  datatype Call = Line(json: string, io: Io) | Restarted

  ghost predicate ValidCalls(calls: seq<Call>) {
    forall k :: 0 <= k < |calls| && calls[k].Line? ==> ValidIo(calls[k].io)
  }

  /** The day of the last line, or a first day */
  function DayOf(calls: seq<Call>, day: string): string {
    if calls == [] then day
    else
      match calls[|calls| - 1]
      case Restarted => DayOf(calls[..|calls| - 1], day)
      case Line(_, io) => io.today
  }

  /** After that day: the file calls succeed and the day does not go back. */
  predicate Advances(call: Call, day: string) {
    call.Line? ==> FilesWork(call.io) && NotLater(day, call.io.today)
  }

  predicate Forward(calls: seq<Call>, day: string) {
    forall k :: 0 <= k < |calls| ==> Advances(calls[k], DayOf(calls[..k], day))
  }

  /** And a new process starts on a later day than that of the line before it. */
  predicate Orderly(call: Call, day: string, restarted: bool) {
    call.Line? ==> FilesWork(call.io) && if restarted then Earlier(day, call.io.today) else NotLater(day, call.io.today)
  }

  predicate InOrder(calls: seq<Call>, day: string) {
    forall k :: 0 <= k < |calls| ==> Orderly(calls[k], DayOf(calls[..k], day), AfterRestart(calls, k))
  }

  predicate AfterRestart(calls: seq<Call>, k: nat)
    requires k <= |calls|
  {
    k > 0 && calls[k - 1].Restarted?
  }

  /** How many processes start on day d after a line of that day */
  function StartsOn(calls: seq<Call>, day: string, d: string): nat {
    if calls == [] then 0
    else
      var n := |calls| - 1;
      StartsOn(calls[..n], day, d) + if calls[n].Restarted? && DayOf(calls[..n], day) == d then 1 else 0
  }

  function NoStarts(d: string): nat {
    0
  }

  ghost predicate Counts(starts: string -> nat, calls: seq<Call>, day: string) {
    forall d :: starts(d) == StartsOn(calls, day, d)
  }

  lemma CountsNothing(day: string)
    ensures DayOf([], day) == day && Counts(NoStarts, [], day)
  {
  }

  lemma CountsNext(starts: string -> nat, calls: seq<Call>, call: Call, day: string) returns (starts': string -> nat)
    requires Counts(starts, calls, day)
    ensures Counts(starts', calls + [call], day) && Started(starts, starts', call, DayOf(calls, day))
    ensures DayOf(calls + [call], day) == DayAfter(call, DayOf(calls, day))
  {
    assert (calls + [call])[..|calls|] == calls;
    starts' := d => StartsOn(calls + [call], day, d);
  }

  /** A restart is one more start on its day. */
  ghost predicate Started(starts: string -> nat, starts': string -> nat, call: Call, day: string) {
    forall d :: starts'(d) == if call.Restarted? && d == day then starts(d) + 1 else starts(d)
  }

  /** No file of a day is longer than the starts on that day account for. */
  ghost predicate BoundedDays(files: map<string, string>, limit: nat, calls: seq<Call>, day: string) {
    forall d, p: nat :: IsDate(d) ==>
      Size(files, Path(d, p)) <= Fullest(limit) + (1 + StartsOn(calls, day, d)) * MAX_LINE
  }

  /** Every state is saved. */
  predicate Saved(calls: seq<Call>) {
    forall k :: 0 <= k < |calls| && calls[k].Line? ==> calls[k].io.saving == Complete
  }

  /** A line that can be sealed and is short enough, all calls into the platform and the file system succeed, and
      the state is saved. */
  predicate Works(call: Call) {
    match call
    case Restarted => true
    case Line(json, io) =>
      && Braced(json) && |json| <= 8012 && io.keys && io.hashed && io.saving == Complete
      && io.encryption.nonce.Some? && io.encryption.encrypted && io.encryption.encoded
      && io.directories && io.first == io.second == Opening(true, true) && io.writing == Whole
  }

  predicate AllWork(calls: seq<Call>) {
    forall k :: 0 <= k < |calls| ==> Works(calls[k])
  }

  /** Every line was written. */
  predicate AllWritten(calls: seq<Call>, oks: seq<bool>) {
    |calls| == |oks| && forall k :: 0 <= k < |calls| && calls[k].Line? ==> oks[k]
  }

  lemma OneMoreWritten(calls: seq<Call>, oks: seq<bool>, call: Call, ok: bool)
    ensures AllWritten(calls, oks) && (call.Line? ==> ok) ==> AllWritten(calls + [call], oks + [ok])
  {
  }

  lemma NothingWritten()
    ensures AllWritten([], [])
  {
  }

  lemma WorksAt(calls: seq<Call>, k: nat)
    requires k < |calls|
    ensures AllWork(calls) ==> Works(calls[k])
  {
  }

  /** Nothing has failed so far. */
  ghost predicate Healthy(w: Writer)
    reads w, w.chain
  {
    w.chain.keyed && (w.streamOpen ==> w.streamGood) && w.Intact() && w.chain.Resumable()
  }

  /** The records from number base on are for the lines of calls in their order: entry base + j is for call
      origin[j], and is in the files exactly if that call returned true. No other call did. */
  ghost predicate Outcomes(base: nat, calls: seq<Call>, log: seq<Entry>, history: seq<Sealed>,
                           oks: seq<bool>, origin: seq<nat>) {
    && |oks| == |calls| && |log| == |history| == base + |origin|
    && (forall j :: 0 <= j < |origin| ==> OutcomeOf(calls, log[base + j], history[base + j], oks, origin[j]))
    && (forall i, j :: 0 <= i < j < |origin| ==> origin[i] < origin[j])
    && (forall k :: 0 <= k < |calls| && oks[k] ==> k in origin)
  }

  ghost predicate OutcomeOf(calls: seq<Call>, e: Entry, r: Sealed, oks: seq<bool>, k: nat)
    requires |oks| == |calls|
  {
    && k < |calls| && calls[k].Line? && r.body == calls[k].json
    && (oks[k] <==> e.line.Some?) && (oks[k] ==> e.date == calls[k].io.today)
  }

  /** A call adds a record with its outcome, or it adds nothing and returns false. */
  ghost predicate Adds(call: Call, ok: bool, log: seq<Entry>, history: seq<Sealed>,
                       log': seq<Entry>, history': seq<Sealed>) {
    if log' == log then !ok && history' == history
    else
      && |log'| == |log| + 1 && log'[..|log|] == log && |history'| == |log'| && history'[..|log|] == history
      && OutcomeOf([call], log'[|log|], history'[|log|], [ok], 0)
  }

  lemma OutcomesUnsealed(base: nat, calls: seq<Call>, log: seq<Entry>, history: seq<Sealed>, oks: seq<bool>,
                         origin: seq<nat>, call: Call)
    requires Outcomes(base, calls, log, history, oks, origin)
    ensures Outcomes(base, calls + [call], log, history, oks + [false], origin)
  {
    forall j | 0 <= j < |origin|
      ensures OutcomeOf(calls + [call], log[base + j], history[base + j], oks + [false], origin[j])
    {
      assert OutcomeOf(calls, log[base + j], history[base + j], oks, origin[j]);
    }
  }

  lemma OutcomesSealed(base: nat, calls: seq<Call>, log: seq<Entry>, history: seq<Sealed>, oks: seq<bool>,
                       origin: seq<nat>, call: Call, e: Entry, r: Sealed, ok: bool)
    requires Outcomes(base, calls, log, history, oks, origin) && OutcomeOf([call], e, r, [ok], 0)
    ensures Outcomes(base, calls + [call], log + [e], history + [r], oks + [ok], origin + [|calls|])
  {
    var calls', log', history', oks', origin' :=
      calls + [call], log + [e], history + [r], oks + [ok], origin + [|calls|];
    forall j | 0 <= j < |origin'| ensures OutcomeOf(calls', log'[base + j], history'[base + j], oks', origin'[j]) {
      if j < |origin| {
        assert OutcomeOf(calls, log[base + j], history[base + j], oks, origin[j]);
      }
    }
    forall i, j | 0 <= i < j < |origin'| ensures origin'[i] < origin'[j] {
      assert OutcomeOf(calls, log[base + i], history[base + i], oks, origin[i]);
    }
    forall k | 0 <= k < |calls'| && oks'[k] ensures k in origin' {
      if k == |calls| {
        assert origin'[|origin|] == k;
      } else {
        assert oks[k] && k in origin;
      }
    }
  }

  lemma OutcomesNext(base: nat, calls: seq<Call>, log: seq<Entry>, history: seq<Sealed>, oks: seq<bool>,
                     origin: seq<nat>, call: Call, ok: bool, log': seq<Entry>, history': seq<Sealed>)
    returns (origin': seq<nat>)
    requires Outcomes(base, calls, log, history, oks, origin) && Adds(call, ok, log, history, log', history')
    requires |log| == |history|
    ensures Outcomes(base, calls + [call], log', history', oks + [ok], origin')
    ensures |log| <= |log'| <= |log| + 1 && |log'| == |history'|
    ensures log'[..|log|] == log && history'[..|log|] == history
  {
    hide Outcomes, OutcomeOf;
    if log' == log {
      OutcomesUnsealed(base, calls, log, history, oks, origin, call);
      origin' := origin;
    } else {
      var e, r := log'[|log|], history'[|log|];
      OutcomesSealed(base, calls, log, history, oks, origin, call, e, r, ok);
      assert log' == log + [e] && history' == history + [r];
      origin' := origin + [|calls|];
    }
  }

  /** On course for the day, or just started on it */
  ghost predicate Settled(w: Writer, day: string, restarted: bool)
    reads w
  {
    if restarted then w.Sound() && NoneLater(w.files, day) && !w.streamOpen else w.OnCourse(day)
  }

  lemma ReachesDay(w: Writer, day: string, restarted: bool, today: string)
    requires Settled(w, day, restarted) && IsDate(today)
    requires if restarted then Earlier(day, today) else NotLater(day, today)
    ensures w.OnCourse(today)
  {
    hide Path, FilesMatch, Ordered, AllReadable, Bounded, NoneLater, CipherLaw, Base64Law, MacLaw;
    if Earlier(day, today) {
      NoneLaterStill(w.files, day, today);
      forall p: nat ensures TextOf(w.files, Path(today, p)) == "" {
        NothingOfLaterDay(w.files, day, today, p);
      }
    }
  }

  lemma EmptyOnCourse(w: Writer, day: string)
    requires w.Valid() && w.files == map[] && w.log == []
    ensures w.OnCourse(day)
  {
    hide CipherLaw, Base64Law, MacLaw, Path;
  }

  /** The day after a call */
  function DayAfter(call: Call, day: string): string {
    if call.Line? then call.io.today else day
  }

  /** No file is longer than its day allows. */
  ghost predicate InBounds(w: Writer, day: string, starts: string -> nat)
    reads w
  {
    Capped(w.files, w.streamOpen && w.openDate == day, w.partIndex, day, starts, w.maxFileBytes)
  }

  lemma EmptyInBounds(w: Writer, day: string, starts: string -> nat)
    requires w.files == map[]
    ensures InBounds(w, day, starts)
  {
    hide Path;
  }

  /** After a line of the day has gone to the part that the sizes determine */
  lemma LineInBounds(w: Writer, f: map<string, string>, log: seq<Entry>, e: Entry, open: bool, part: nat, today: string,
      starts: string -> nat)
    requires w.Valid() && FilesMatch(f, log) && w.log == log + [e] && IsDate(today)
    requires Capped(f, open, part, today, starts, w.maxFileBytes)
    requires w.streamOpen && w.openDate == today
    requires w.partIndex == Turn(f, today, if open then Turn(f, today, part, w.maxFileBytes) else 0, w.maxFileBytes)
    requires (e.chars != "" ==> e.date == today && e.part == w.partIndex) && |e.chars| <= MAX_LINE
    ensures InBounds(w, today, starts)
  {
    hide Capped, FilesMatch, Path, Turn;
    GrowBy(f, w.files, log, e);
    CapKept(f, w.files, e, open, part, today, starts, w.maxFileBytes, w.partIndex);
  }

  lemma ValidMatches(w: Writer)
    requires w.Valid()
    ensures FilesMatch(w.files, w.log)
  {
  }

  lemma ReachesCourse(w: Writer, json: string, io: Io, day: string, restarted: bool)
    requires ValidIo(io)
    ensures Settled(w, day, restarted) && Orderly(Line(json, io), day, restarted) ==>
      FilesWork(io) && w.Sound() && w.OnCourse(io.today)
  {
    hide Settled, Writer.Sound;
    if Settled(w, day, restarted) && Orderly(Line(json, io), day, restarted) {
      ReachesDay(w, day, restarted, io.today);
    }
  }

  lemma HealthyWriter(w: Writer, json: string, io: Io)
    ensures Healthy(w) && Works(Line(json, io)) ==>
      w.Writable(io.today) && w.Seals(json, io) && w.chain.keyed && w.Intact() && w.chain.Resumable()
  {
    hide Writer.Intact, Chain.Resumable;
  }

  /** The line of a record with a short body can be encrypted. */
  lemma Encrypted(w: Writer, n: nat, io: Io)
    requires w.Valid() && w.Intact() && n < |w.chain.history| && |w.chain.history[n].body| <= 8012
    requires io.encryption.nonce.Some? && io.encryption.encrypted && io.encryption.encoded
    ensures w.chain.history[n].body != "" && Encrypts(LineOf(w.chain.history[n]), io.encryption)
  {
    hide Writer.Valid, Linked, MacLaw, SealedLine, LineOf;
    SealedLength(w.chain.history, w.chain.mac, n);
  }

  /** Seals and writes a line. Where nothing has failed and nothing fails, it is written. */
  method Deliver(w: Writer, json: string, io: Io) returns (ok: bool)
    requires w.Valid() && w.Chained() && ValidIo(io)
    modifies w, w.chain
    ensures w.Valid() && w.Chained() && w.Step(json, io, ok) && w.Kept(io) && w.Resumed(json, io)
    ensures old(Healthy(w)) && Works(Line(json, io)) && |w.chain.history| < SEQ_LIMIT ==> ok && Healthy(w)
  {
    hide Writer.Valid, Writer.Chained, Writer.Sound, Writer.Intact, Writer.OnCourse, Writer.Seals, Writer.Writable;
    hide Writer.Logged, Writer.Kept, Chain.Resumable, Framed, Reached, LineOf, Braced, Healthy, Writer.NextPart;
    HealthyWriter(w, json, io);
    ghost var n, works := |w.log|, Healthy(w) && Works(Line(json, io));
    ok := w.SealAndWrite(json, io);
    if works && |w.chain.history| < SEQ_LIMIT {
      Encrypted(w, n, io);
      StillHealthy(w);
    }
  }

  lemma StillHealthy(w: Writer)
    ensures w.chain.keyed && w.streamGood && w.Intact() && w.chain.Resumable() ==> Healthy(w)
  {
  }

  /** Makes a call that writes. */
  method WriteNext(w: Writer, json: string, io: Io, ghost day: string, ghost restarted: bool,
      ghost starts: string -> nat)
    returns (ok: bool)
    requires w.Valid() && w.Chained() && ValidIo(io)
    modifies w, w.chain
    ensures w.Valid() && w.Chained()
    ensures Adds(Line(json, io), ok, old(w.log), old(w.chain.history), w.log, w.chain.history)
    ensures old(Settled(w, day, restarted)) && Orderly(Line(json, io), day, restarted) ==> w.OnCourse(io.today)
    ensures old(InBounds(w, day, starts)) && Advances(Line(json, io), day) ==> InBounds(w, io.today, starts)
    ensures old(w.Intact() && w.chain.Resumable()) && io.saving == Complete && |w.chain.history| < SEQ_LIMIT ==>
      w.Intact() && w.chain.Resumable()
    ensures old(Healthy(w)) && Works(Line(json, io)) && |w.chain.history| < SEQ_LIMIT ==> ok && Healthy(w)
  {
    hide Writer.Valid, Writer.Chained, Writer.Sound, Writer.Intact, Writer.OnCourse, Writer.Seals, Writer.Writable;
    hide Chain.Resumable, Framed, Reached, Healthy, Works;
    hide FilesMatch, SealedLine, Path, Capped, TextOf, Turn, Readable, Fits, NoneLater, Settled, Orderly;
    ReachesCourse(w, json, io, day, restarted);
    ValidMatches(w);
    ghost var f, log, open, part := w.files, w.log, w.streamOpen && w.openDate == io.today, w.partIndex;
    ghost var forward := InBounds(w, day, starts) && Advances(Line(json, io), day);
    if forward {
      CapReaches(f, w.streamOpen && w.openDate == day, part, day, starts, w.maxFileBytes, open, io.today);
    }
    ok := Deliver(w, json, io);
    if forward && |w.log| > |log| && Encrypts(w.log[|log|].text, io.encryption) {
      ghost var e := w.log[|log|];
      FramedLength(|e.text|);
      assert w.log == log + [e];
      LineInBounds(w, f, log, e, open, part, io.today, starts);
    }
  }

  /** Makes one call. */
  method Next(w: Writer, call: Call, ghost day: string, ghost restarted: bool, ghost starts: string -> nat,
      ghost starts': string -> nat)
    returns (v: Writer, ok: bool)
    requires w.Valid() && w.Chained() && (call.Line? ==> ValidIo(call.io))
    requires Started(starts, starts', call, day)
    modifies w, w.chain
    ensures v == w || (fresh(v) && fresh(v.chain))
    ensures v.Valid() && v.Chained() && v.codec == w.codec && v.maxFileBytes == w.maxFileBytes
    ensures Adds(call, ok, old(w.log), old(w.chain.history), v.log, v.chain.history)
    ensures old(Settled(w, day, restarted)) && Orderly(call, day, restarted) ==>
      Settled(v, DayAfter(call, day), call.Restarted?)
    ensures old(InBounds(w, day, starts)) && Advances(call, day) ==> InBounds(v, DayAfter(call, day), starts')
    ensures old(w.Intact() && w.chain.Resumable()) && Saved([call]) && |v.chain.history| < SEQ_LIMIT ==>
      v.Intact() && v.chain.Resumable()
    ensures old(Healthy(w)) && Works(call) && |v.chain.history| < SEQ_LIMIT ==> Healthy(v) && (call.Line? ==> ok)
  {
    hide Writer.Valid, Writer.Chained, Writer.Sound, Writer.OnCourse, Capped, MacLaw, Linked, LoadedState,
      Writer.NextPart;
    assert [call][0] == call;
    assert Saved([call]) && call.Line? ==> [call][0].io.saving == Complete;
    match call
    case Restarted =>
      OnCourseSound(w, day);
      v := Restart(w);
      if InBounds(w, day, starts) {
        CapStarted(w.files, w.streamOpen && w.openDate == day, w.partIndex, v.partIndex, day, starts, starts',
          w.maxFileBytes);
      }
      ok := false;
    case Line(json, io) =>
      v := w;
      ok := WriteNext(w, json, io, day, restarted, starts);
      if InBounds(w, io.today, starts) { SameStarts(w, io.today, starts, starts'); }
  }

  lemma OnCourseSound(w: Writer, day: string)
    ensures w.OnCourse(day) ==> w.Sound() && NoneLater(w.files, day)
  {
  }

  lemma SameStarts(w: Writer, day: string, starts: string -> nat, starts': string -> nat)
    requires InBounds(w, day, starts) && forall d :: starts'(d) == starts(d)
    ensures InBounds(w, day, starts')
  {
    hide Path, TextOf;
    forall d, p: nat | IsDate(d) ensures Within(w.files, d, p, Cap(w.maxFileBytes, starts'(d))) {
      assert Within(w.files, d, p, Cap(w.maxFileBytes, starts(d)));
    }
    var open := w.streamOpen && w.openDate == day;
    forall p: nat ensures AheadWithin(w.files, open, w.partIndex, day, p, Room(w.maxFileBytes, starts'(day))) {
      assert AheadWithin(w.files, open, w.partIndex, day, p, Room(w.maxFileBytes, starts(day)));
    }
  }

  /** Makes calls one after the other. Log and chain list the outcomes in order. With files that can be opened
      and days in order every part stays in order and in bounds; if processes start again on a day, its files may
      be longer by one line for each start. With every state saved the sealed lines make up one chain, whatever
      restarts there are. */
  method Run(w0: Writer, calls: seq<Call>, ghost day: string)
    returns (w: Writer, oks: seq<bool>, ghost origin: seq<nat>)
    requires w0.Valid() && w0.Chained() && ValidCalls(calls)
    modifies w0, w0.chain
    ensures w.Valid() && w.Chained() && w.codec == w0.codec && w.maxFileBytes == w0.maxFileBytes
    ensures Outcomes(|old(w0.log)|, calls, w.log, w.chain.history, oks, origin)
    ensures w.log[..|old(w0.log)|] == old(w0.log) && w.chain.history[..|old(w0.log)|] == old(w0.chain.history)
    ensures old(w0.OnCourse(day)) && InOrder(calls, day) ==> w.Sound()
    ensures old(InBounds(w0, day, NoStarts)) && Forward(calls, day) ==>
      BoundedDays(w.files, w.maxFileBytes, calls, day)
    ensures old(w0.Intact() && w0.chain.Resumable()) && Saved(calls) && |old(w0.log)| + |calls| < SEQ_LIMIT ==>
      w.Intact() && w.chain.Resumable()
    ensures old(Healthy(w0)) && AllWork(calls) && |old(w0.log)| + |calls| < SEQ_LIMIT ==> AllWritten(calls, oks)
  {
    hide Writer.Valid, Writer.Chained, Writer.Sound, Writer.NextPart, Writer.Intact, Chain.Resumable, Outcomes, Adds;
    hide InOrder, Forward, Orderly, Advances, Counts, Started, DayOf, InBounds, BoundedDays, Settled, Writer.OnCourse,
      Saved;
    hide Healthy, Works, AllWork, AllWritten;
    w, oks, origin := w0, [], [];
    ghost var n := |w0.log|;
    ghost var inOrder := w0.OnCourse(day) && InOrder(calls, day);
    ghost var forward := InBounds(w0, day, NoStarts) && Forward(calls, day);
    ghost var saved := w0.Intact() && w0.chain.Resumable() && Saved(calls) && n + |calls| < SEQ_LIMIT;
    ghost var working := Healthy(w0) && AllWork(calls) && n + |calls| < SEQ_LIMIT;
    ghost var today, restarted := day, false;
    ghost var starts: string -> nat := NoStarts;
    NoOutcomes(w0);
    NothingWritten();
    CountsNothing(day);
    SettledFirst(w0, day);
    assert calls[..0] == [];
    for k := 0 to |calls|
      invariant w == w0 || (fresh(w) && fresh(w.chain))
      invariant w.Valid() && w.Chained() && w.codec == w0.codec && w.maxFileBytes == w0.maxFileBytes
      invariant n <= |w.log| <= n + k && |w.log| == |w.chain.history|
      invariant w.log[..n] == old(w0.log) && w.chain.history[..n] == old(w0.chain.history)
      invariant Outcomes(n, calls[..k], w.log, w.chain.history, oks, origin)
      invariant today == DayOf(calls[..k], day) && Counts(starts, calls[..k], day)
      invariant restarted == AfterRestart(calls, k)
      invariant inOrder ==> Settled(w, today, restarted)
      invariant forward ==> InBounds(w, today, starts)
      invariant saved ==> w.Intact() && w.chain.Resumable()
      invariant working ==> Healthy(w) && AllWritten(calls[..k], oks)
    {
      assert calls[..k + 1] == calls[..k] + [calls[k]];
      ghost var log, history := w.log, w.chain.history;
      InOrderAt(calls, day, k);
      ForwardAt(calls, day, k);
      SavedAt(calls, k);
      WorksAt(calls, k);
      ghost var starts' := CountsNext(starts, calls[..k], calls[k], day);
      var ok;
      w, ok := Next(w, calls[k], today, restarted, starts, starts');
      origin := OutcomesNext(n, calls[..k], log, history, oks, origin, calls[k], ok, w.log, w.chain.history);
      OneMoreWritten(calls[..k], oks, calls[k], ok);
      oks := oks + [ok];
      today, restarted, starts := DayAfter(calls[k], today), calls[k].Restarted?, starts';
    }
    assert calls[..|calls|] == calls;
    if inOrder { SettledSound(w, today, restarted); }
    if forward { BoundsOf(w, today, starts, calls, day); }
  }

  lemma BoundsOf(w: Writer, today: string, starts: string -> nat, calls: seq<Call>, day: string)
    requires InBounds(w, today, starts) && Counts(starts, calls, day)
    ensures BoundedDays(w.files, w.maxFileBytes, calls, day)
  {
    hide Path, TextOf, StartsOn;
    forall d, p: nat | IsDate(d)
      ensures Size(w.files, Path(d, p)) <= Fullest(w.maxFileBytes) + (1 + StartsOn(calls, day, d)) * MAX_LINE
    {
      assert Within(w.files, d, p, Cap(w.maxFileBytes, starts(d)));
    }
  }

  lemma SettledFirst(w: Writer, day: string)
    ensures w.OnCourse(day) ==> Settled(w, day, false)
  {
  }

  lemma SettledSound(w: Writer, day: string, restarted: bool)
    requires Settled(w, day, restarted)
    ensures w.Sound()
  {
  }

  lemma SavedAt(calls: seq<Call>, k: nat)
    requires k < |calls|
    ensures Saved(calls) ==> Saved([calls[k]])
  {
  }

  lemma ForwardAt(calls: seq<Call>, day: string, k: nat)
    requires k < |calls|
    ensures Forward(calls, day) ==> Advances(calls[k], DayOf(calls[..k], day))
  {
  }

  lemma InOrderAt(calls: seq<Call>, day: string, k: nat)
    requires k < |calls|
    ensures InOrder(calls, day) ==> Orderly(calls[k], DayOf(calls[..k], day), AfterRestart(calls, k))
  {
  }

  lemma NoOutcomes(w: Writer)
    requires w.Chained()
    ensures Outcomes(|w.log|, [], w.log, w.chain.history, [], []) && |w.log| == |w.chain.history|
  {
  }

  /** A call that returned true on a day */
  predicate ReturnedOn(calls: seq<Call>, oks: seq<bool>, d: string, k: nat) {
    k < |calls| && k < |oks| && oks[k] && calls[k].Line? && calls[k].io.today == d
  }

  /** A piece of a file decrypts to the sealed line of a call. */
  ghost predicate LineFor(c: Codec, history: seq<Sealed>, piece: string, call: Call) {
    && call.Line? && call.json != ""
    && exists r :: r in history && r.body == call.json && Decrypted(c, piece) == Some(LineOf(r))
  }

  /** Reading a day back after a run from an empty directory: the lines of its parts, decrypted, are one sealed line
      for each call of that day that returned true, in the order of the calls. */
  lemma RunReadsBack(w: Writer, calls: seq<Call>, oks: seq<bool>, origin: seq<nat>, d: string, n: nat)
    returns (from: seq<nat>)
    requires w.Sound() && w.Chained() && Outcomes(0, calls, w.log, w.chain.history, oks, origin)
    requires IsDate(d) && Below(w.log, d, n)
    ensures |Pieces(w.files, d, n)| == |from|
    ensures forall k :: 0 <= k < |from| ==>
      from[k] < |calls| && LineFor(w.codec, w.chain.history, Pieces(w.files, d, n)[k], calls[from[k]])
    ensures forall j, k :: 0 <= j < k < |from| ==> from[j] < from[k]
    ensures forall c: nat :: c in from <==> ReturnedOn(calls, oks, d, c)
  {
    ReadDay(w, d, n);
    hide Writer.Sound, Writer.Chained, Below, Pieces, Numbers, Decrypted, LineOf;
    from := CallsOf(calls, w.log, w.chain.history, oks, origin, d, Numbers(w.log, d, n));
  }

  /** The calls that the written lines of a day are from */
  lemma CallsOf(calls: seq<Call>, log: seq<Entry>, history: seq<Sealed>, oks: seq<bool>, origin: seq<nat>, d: string,
      numbers: seq<nat>)
    returns (from: seq<nat>)
    requires Outcomes(0, calls, log, history, oks, origin)
    requires forall i: nat :: i in numbers <==> i < |log| && log[i].line.Some? && log[i].date == d
    requires forall j, k :: 0 <= j < k < |numbers| ==> numbers[j] < numbers[k]
    ensures |from| == |numbers|
    ensures forall k :: 0 <= k < |from| ==>
      && from[k] < |calls| && calls[from[k]].Line?
      && numbers[k] < |history| && history[numbers[k]].body == calls[from[k]].json
    ensures forall j, k :: 0 <= j < k < |from| ==> from[j] < from[k]
    ensures forall c: nat :: c in from <==> ReturnedOn(calls, oks, d, c)
  {
    assert forall k :: 0 <= k < |numbers| ==> numbers[k] in numbers;
    from := seq(|numbers|, k requires 0 <= k < |numbers| => origin[numbers[k]]);
    forall k | 0 <= k < |from|
      ensures ReturnedOn(calls, oks, d, from[k]) && history[numbers[k]].body == calls[from[k]].json
    {
      assert OutcomeOf(calls, log[0 + numbers[k]], history[0 + numbers[k]], oks, origin[numbers[k]]);
    }
    forall c: nat | ReturnedOn(calls, oks, d, c) ensures c in from {
      var i :| 0 <= i < |origin| && origin[i] == c;
      assert OutcomeOf(calls, log[0 + i], history[0 + i], oks, origin[i]);
      var k :| 0 <= k < |numbers| && numbers[k] == i;
      assert from[k] == c;
    }
  }

  /** A run of the first process and its successors, from an empty directory and without a state file */
  method RunFromEmpty(codec: Codec, hostname: string, maxFileBytes: nat, mac: string -> string, keyed: bool,
      calls: seq<Call>)
    returns (w: Writer, oks: seq<bool>, ghost origin: seq<nat>)
    requires CipherLaw(codec) && Base64Law(codec) && MacLaw(mac) && ValidCalls(calls)
    ensures w.Valid() && w.Chained() && w.codec == codec && w.maxFileBytes == maxFileBytes
    ensures Outcomes(0, calls, w.log, w.chain.history, oks, origin)
    ensures InOrder(calls, "") ==> w.Sound()
    ensures Forward(calls, "") ==>
      BoundedDays(w.files, maxFileBytes, calls, "")
    ensures Saved(calls) && |calls| < SEQ_LIMIT ==> w.Intact() && w.chain.Resumable()
    ensures keyed && AllWork(calls) && |calls| < SEQ_LIMIT ==> AllWritten(calls, oks)
  {
    var chain := new Chain(mac, keyed, None, []);
    var w0 := new Writer(codec, hostname, maxFileBytes, chain, map[], []);
    EmptyOnCourse(w0, "");
    EmptyInBounds(w0, "", NoStarts);
    hide Writer.OnCourse, Writer.Sound, Outcomes, InBounds, BoundedDays;
    w, oks, origin := Run(w0, calls, "");
  }
}
