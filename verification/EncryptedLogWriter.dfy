/** native/UserAuditSvc/src/encrypted_log_writer.cpp: sealed lines, encrypted, in the part files of a day. */
module EncryptedLogWriter {
  import opened Options
  import opened EventSerializer
  import opened HashChain
  import opened LogCrypto
  import opened LogFiles

  // The writer -------------------------------------------------------------------------------------------

  /** What checking a file's size and opening the next file come to */
  datatype Opening = Opening(sized: bool, usable: bool)

  /** What becomes of writing a line into a stream in order: all of it reaches the file, or so many characters. */
  datatype Writing = Whole | Cut(count: nat)

  /** What reaches the file. A stream that has failed takes nothing any more. */
  function Reached(good: bool, line: string, writing: Writing): string {
    if !good then ""
    else
      match writing
      case Whole => line + "\n"
      case Cut(count) => line[..if count < |line| then count else |line|]
  }

  /** What the calls of one write into the clock, the platform and the file system come to */
  datatype Io = Io(today: string, keys: bool, hashed: bool, saving: Saving, encryption: Outcome,
                   directories: bool, first: Opening, second: Opening, writing: Writing)

  ghost predicate ValidIo(io: Io) {
    IsDate(io.today) && ValidOutcome(io.encryption)
  }

  /** The log directory and its files can be made, measured and opened. */
  predicate FilesWork(io: Io) {
    io.directories && io.first == io.second == Opening(true, true)
  }

  predicate Encrypts(text: string, o: Outcome) {
    |text| <= MAX_PLAIN && o.nonce.Some? && o.encrypted && o.encoded
  }

  /** What was written of an entry decrypts to the sealed text. */
  ghost predicate Readable(c: Codec, e: Entry) {
    Formed(e) && (e.line.Some? ==> Decrypted(c, e.line.value) == Some(e.text))
  }

  ghost predicate AllReadable(c: Codec, log: seq<Entry>) {
    forall i :: 0 <= i < |log| ==> Readable(c, log[i])
  }

  lemma ReadableFormed(c: Codec, log: seq<Entry>)
    requires AllReadable(c, log)
    ensures AllFormed(log)
  {
    hide Formed;
    forall i | 0 <= i < |log| ensures Formed(log[i]) {
      assert Readable(c, log[i]);
    }
  }

  /** An entry is for a record of the chain. */
  ghost predicate EntryOf(e: Entry, r: Sealed) {
    r.body != "" && e.text == LineOf(r)
  }

  class Writer {
    const codec: Codec
    const hostname: string
    const maxFileBytes: nat
    const chain: Chain
    var files: map<string, string>  // the log directory, outlives the object
    var streamOpen: bool
    var streamGood: bool  // what stream_.good() says of an open stream
    var openDate: string
    var partIndex: nat
    var ready: bool
    ghost var log: seq<Entry>

    constructor (codec: Codec, hostname: string, maxFileBytes: nat, chain: Chain, files: map<string, string>,
                 ghost log: seq<Entry>)
      requires CipherLaw(codec) && Base64Law(codec) && MacLaw(chain.mac)
      requires FilesMatch(files, log) && AllReadable(codec, log)
      ensures Valid() && !streamOpen && !ready && this.chain == chain && this.files == files && this.log == log
      ensures this.codec == codec && this.hostname == hostname && this.maxFileBytes == maxFileBytes
    {
      this.codec, this.hostname, this.maxFileBytes, this.chain := codec, hostname, maxFileBytes, chain;
      this.files, this.log := files, log;
      streamOpen, streamGood, openDate, partIndex, ready := false, true, "", 0, false;
    }

    /** What holds of every writer: the open file exists, and the files hold what was logged. */
    ghost predicate Valid()
      reads this`files, this`streamOpen, this`openDate, this`partIndex, this`log
    {
      && CipherLaw(codec) && Base64Law(codec) && MacLaw(chain.mac)
      && FilesMatch(files, log) && AllReadable(codec, log)
      && (streamOpen ==> IsDate(openDate) && Path(openDate, partIndex) in files)
    }

    /** Lines went to the parts of their days in order, and no file is too long. */
    ghost predicate Sound()
      reads this`files, this`streamOpen, this`openDate, this`partIndex, this`log
    {
      Valid() && Tidy(files, log, maxFileBytes + MAX_LINE)
    }

    /** The part that the next line goes to: an open file of the day has its size checked twice, a day that
        is opened starts at part 0 and has it checked once. */
    ghost function NextPart(today: string): nat
      reads this`files, this`streamOpen, this`openDate, this`partIndex
    {
      if streamOpen && openDate == today then
        Turn(files, today, Turn(files, today, partIndex, maxFileBytes), maxFileBytes)
      else
        Turn(files, today, 0, maxFileBytes)
    }

    /** The next line of the day goes to a stream in order: to the open one, or to one that is opened for it. */
    ghost predicate Writable(today: string)
      reads this`files, this`streamOpen, this`streamGood, this`openDate, this`partIndex
    {
      streamGood || !streamOpen || openDate != today || NextPart(today) != partIndex
    }

    /** All is well, no file is of a later day, and the next line of the day will find its part in order. */
    ghost predicate OnCourse(today: string)
      reads this`files, this`streamOpen, this`streamGood, this`openDate, this`partIndex, this`log
    {
      var p := NextPart(today);
      && Sound() && NoneLater(files, today)
      && NoneAfter(files, today, p) && Size(files, Path(today, p)) <= maxFileBytes
      && (Writable(today) ==> EndsLine(TextOf(files, Path(today, p))))
    }

    /** Opens the file of the current date and part. */
    method Open(usable: bool)
      requires Valid() && !streamOpen && IsDate(openDate)
      modifies this`files, this`streamOpen, this`streamGood
      ensures Valid() && streamOpen == usable && (usable ==> streamGood)
      ensures files == if usable then Touched(old(files), Path(openDate, partIndex)) else old(files)
      ensures old(Sound()) ==> Sound()
    {
      hide CipherLaw, Base64Law, MacLaw, FilesMatch, Path, Ordered, AllReadable;
      if usable {
        TouchedMatches(files, log, openDate, partIndex);
        files := Touched(files, Path(openDate, partIndex));
        streamOpen, streamGood := true, true;
      }
    }

    /** The effect of one check of the size: a full file, and only that, is closed for the next part. */
    twostate predicate Rotated(o: Opening, ok: bool)
      reads this
    {
      && openDate == old(openDate)
      && if old(streamOpen) && o.sized && Size(old(files), Path(openDate, old(partIndex))) >= maxFileBytes then
        && partIndex == old(partIndex) + 1 && streamOpen == ok == o.usable && (ok ==> streamGood)
        && files == if ok then Touched(old(files), Path(openDate, partIndex)) else old(files)
      else
        ok && (files, streamOpen, streamGood, partIndex) == old((files, streamOpen, streamGood, partIndex))
    }

    method RotateIfNeeded(o: Opening) returns (ok: bool)
      requires Valid()
      modifies this`files, this`streamOpen, this`streamGood, this`partIndex
      ensures Valid() && Rotated(o, ok)
      ensures old(Sound()) ==> Sound()
    {
      hide CipherLaw, Base64Law, MacLaw, FilesMatch, Path, Ordered, AllReadable, Bounded;
      if !streamOpen {
        return true;
      }
      var path := Path(openDate, partIndex);
      if !o.sized || |files[path]| < maxFileBytes {
        return true;
      }
      streamOpen := false;
      partIndex := partIndex + 1;
      Open(o.usable);
      ok := streamOpen;
    }

    /** A day that is not open is opened at part 0, whatever parts it has. */
    method EnsureOpenForToday(io: Io) returns (ok: bool)
      requires Valid() && ValidIo(io)
      modifies this`files, this`streamOpen, this`streamGood, this`openDate, this`partIndex
      ensures Valid()
      ensures
        if old(streamOpen && openDate == io.today) then Rotated(io.first, ok)
        else if !io.directories then
          !ok && !streamOpen && (files, openDate, partIndex) == old((files, openDate, partIndex))
        else
          && openDate == io.today && partIndex == 0 && streamOpen == ok == io.first.usable && (ok ==> streamGood)
          && files == if ok then Touched(old(files), Path(io.today, 0)) else old(files)
      ensures old(Sound()) ==> Sound()
    {
      hide CipherLaw, Base64Law, MacLaw, FilesMatch, Path, Ordered, AllReadable, Bounded;
      if streamOpen && openDate == io.today {
        ok := RotateIfNeeded(io.first);
        return;
      }
      streamOpen := false;
      if !io.directories {
        return false;
      }
      openDate := io.today;
      partIndex := 0;
      Open(io.first.usable);
      ok := streamOpen;
    }

    /** A sealed line of which nothing reaches a file */
    ghost method Skip(text: string, date: string)
      requires Valid()
      modifies this`log
      ensures Valid() && log == old(log) + [Entry(text, date, partIndex, None, "")]
      ensures Readable(codec, log[|old(log)|])
      ensures old(Sound()) ==> Sound()
    {
      hide CipherLaw, Base64Law, MacLaw, FilesMatch, Path, Bounded;
      UnloggedMatches(files, log, Entry(text, date, partIndex, None, ""));
      log := log + [Entry(text, date, partIndex, None, "")];
    }

    /** A line and its line break go to the end of the open file, if the stream is in order and stays so. */
    method Append(text: string, line: string, writing: Writing) returns (ok: bool)
      requires Valid() && streamOpen && Decrypted(codec, line) == Some(text) && LineBreakFree(line)
      modifies this`files, this`streamGood, this`log
      ensures Valid() && ok == streamGood == (old(streamGood) && writing == Whole)
      ensures |log| == |old(log)| + 1 && Readable(codec, log[|old(log)|])
      ensures var chars := Reached(old(streamGood), line, writing);
        && log == old(log) + [Entry(text, openDate, partIndex, if ok then Some(line) else None, chars)]
        && files == old(files)[Path(openDate, partIndex) := TextOf(old(files), Path(openDate, partIndex)) + chars]
        && (old(Sound()) ==>
            (Sound() <==> (chars != "" ==> Fits(old(files), openDate, partIndex, chars, maxFileBytes + MAX_LINE))))
    {
      hide CipherLaw, Base64Law, MacLaw, FilesMatch, Path, Ordered, Bounded, Decrypted, Fits;
      var path, chars := Path(openDate, partIndex), Reached(streamGood, line, writing);
      ok := streamGood && writing == Whole;
      ghost var e := Entry(text, openDate, partIndex, if ok then Some(line) else None, chars);
      assert Formed(e);
      hide Formed;
      LoggedMatches(files, log, e);
      ReadableFormed(codec, log);
      if Sound() && chars != "" {
        FitsExactly(files, log, e, maxFileBytes + MAX_LINE);
      }
      if Sound() && chars == "" {
        NothingAdded(files, log, e, maxFileBytes + MAX_LINE);
      }
      files := files[path := files[path] + chars];
      log := log + [e];
      streamGood := ok;
    }

    /** An entry for a line: what was written of it decrypts to it, and what has reached a file is of today. */
    ghost predicate Logged(e: Entry, text: string, io: Io, written: bool)
      reads this`partIndex
    {
      && e.text == text && (written <==> e.line.Some?) && Readable(codec, e)
      && (e.chars != "" ==> |text| <= MAX_PLAIN && e.date == io.today && e.part == partIndex)
      && |e.chars| <= LineLength(|text|) && (written ==> |e.chars| == LineLength(|text|))
    }

    /** What writing a sealed line does to the log directory. A line that cannot be encrypted does not touch
        it. If the file calls succeed, another goes as far as it gets to the part that the sizes determine, and
        the stream stays open there. */
    twostate predicate Placed(text: string, io: Io, ok: bool)
      reads this
    {
      |log| > |old(log)| &&
      if !Encrypts(text, io.encryption) then
        && !ok
        && (files, streamOpen, streamGood, openDate, partIndex)
          == old((files, streamOpen, streamGood, openDate, partIndex))
      else FilesWork(io) ==>
        && ok == streamGood == (io.writing == Whole && old(Writable(io.today)))
        && streamOpen && openDate == io.today && partIndex == old(NextPart(io.today))
        && log[|old(log)|].chars
          == Reached(old(Writable(io.today)), Framed(codec, io.encryption.nonce.value, text), io.writing)
    }

    /** What reaches a file keeps all well exactly if its part was ready for it, and a writer on course stays
        there. */
    twostate predicate Kept(io: Io)
      reads this
    {
      old(Sound()) && FilesWork(io) && |log| > |old(log)| ==> (
        var e, p := log[|old(log)|], old(NextPart(io.today));
        && (Sound() <==> (e.chars != "" ==> Fits(old(files), io.today, p, e.chars, maxFileBytes + MAX_LINE)))
        && (old(OnCourse(io.today)) ==> OnCourse(io.today)))
    }

    lemma Laws()
      requires Valid()
      ensures CipherLaw(codec) && Base64Law(codec) && MacLaw(chain.mac)
    {
    }

    /** Opens the file that the line goes to. */
    method EnsurePart(io: Io) returns (ok: bool)
      requires Valid() && ValidIo(io)
      modifies this`files, this`streamOpen, this`streamGood, this`openDate, this`partIndex
      ensures Valid() && (ok ==> streamOpen && openDate == io.today)
      ensures old(Sound()) ==> Sound()
      ensures FilesWork(io) ==>
        && ok && partIndex == old(NextPart(io.today)) && streamGood == old(Writable(io.today))
        && SameTexts(old(files), files)
      ensures FilesWork(io) && old(NoneLater(files, io.today)) ==> NoneLater(files, io.today)
    {
      hide Valid, Sound, NoneLater, Path, TextOf, SameTexts;
      ok := EnsureOpenForToday(io);
      if !ok {
        return;
      }
      ghost var before := files;
      SameTouched(old(files), before, io.today, partIndex);
      if SameTexts(old(files), before) {
        SameParts(old(files), before, io.today, partIndex, maxFileBytes);
      }
      ok := RotateIfNeeded(io.second);
      SameTouched(before, files, io.today, partIndex);
      if SameTexts(old(files), before) && SameTexts(before, files) {
        SameTransitive(old(files), before, files);
      }
    }

    /** An encrypted line goes to the day's file as far as it gets. */
    method WriteLine(text: string, line: string, io: Io) returns (ok: bool)
      requires Valid() && ValidIo(io) && Decrypted(codec, line) == Some(text) && LineBreakFree(line)
      requires |line| + 1 <= MAX_LINE
      modifies this`files, this`streamOpen, this`streamGood, this`openDate, this`partIndex, this`log
      ensures Valid() && |log| == |old(log)| + 1 && log[..|old(log)|] == old(log)
      ensures var e := log[|old(log)|];
        && e.text == text && (ok <==> e.line.Some?) && Readable(codec, e)
        && (e.chars != "" ==> e.date == io.today && e.part == partIndex)
        && |e.chars| <= |line| + 1 && (ok ==> |e.chars| == |line| + 1)
      ensures FilesWork(io) ==>
        && ok == streamGood == (io.writing == Whole && old(Writable(io.today)))
        && streamOpen && openDate == io.today && partIndex == old(NextPart(io.today))
        && log[|old(log)|].chars == Reached(old(Writable(io.today)), line, io.writing)
      ensures Kept(io)
    {
      hide Decrypted, LineBreakFree, Readable, NoneLater, NoneAfter, EndsLine, Path, TextOf, Turn, NextPart;
      hide Valid, Sound, SameTexts, Fits, Writable;
      ok := EnsurePart(io);
      if !ok {
        Skip(text, io.today);
        return;
      }
      ghost var before, good := files, streamGood;
      ok := Append(text, line, io.writing);
      if FilesWork(io) {
        ghost var chars := Reached(good, line, io.writing);
        SameFits(old(files), before, io.today, partIndex, chars, maxFileBytes + MAX_LINE);
        if old(OnCourse(io.today)) {
          ReadyPart(old(files), before, io.today, partIndex, good, chars, maxFileBytes);
          WholeLineEnds(TextOf(before, Path(io.today, partIndex)), line);
          StillOnCourse(before, chars);
        }
      }
    }

    /** Writes a sealed line, or fails; the log says which. */
    method WriteEncryptedLine(text: string, io: Io) returns (ok: bool)
      requires Valid() && ValidIo(io)
      modifies this`files, this`streamOpen, this`streamGood, this`openDate, this`partIndex, this`log
      ensures Valid()
      ensures |log| == |old(log)| + 1 && log[..|old(log)|] == old(log) && Logged(log[|old(log)|], text, io, ok)
      ensures Placed(text, io, ok) && Kept(io)
    {
      hide CipherLaw, Base64Law, Framed, Decrypted, LineBreakFree, Readable, NoneLater, NoneAfter, EndsLine, Path;
      hide Valid, Sound, TextOf, Turn, NextPart, Fits, Writable;
      Laws();
      if |text| > MAX_PLAIN {
        Skip(text, io.today);
        return false;
      }
      var encrypted, line := EncryptLogLine(codec, true, text, io.encryption, "");
      if !encrypted {
        Skip(text, io.today);
        return false;
      }
      FramedLine(codec, io.encryption.nonce.value, text);
      FramedLength(|text|);
      ok := WriteLine(text, line, io);
    }

    /** After something has gone to the open part, which is the last one, the next line will find its part in
        order. */
    lemma StillOnCourse(before: map<string, string>, chars: string)
      requires Sound() && streamOpen && NoneAfter(before, openDate, partIndex) && NoneLater(before, openDate)
      requires files == before[Path(openDate, partIndex) := TextOf(before, Path(openDate, partIndex)) + chars]
      requires streamGood ==> EndsLine(TextOf(before, Path(openDate, partIndex)) + chars)
      ensures OnCourse(openDate)
    {
      hide Tidy, FilesMatch, Path, NoneLater, NoneAfter, Turn, EndsLine;
      var text := TextOf(before, Path(openDate, partIndex)) + chars;
      NextInOrder(before, openDate, partIndex, text, maxFileBytes);
      NoneLaterWith(before, openDate, partIndex, text);
    }

    /** The chain is whole so far, and the object or the state file stands at its end. */
    ghost predicate Intact()
      reads this`ready, chain
    {
      && MacLaw(chain.mac) && |chain.history| < SEQ_LIMIT && Linked(chain.history, chain.mac)
      && (if ready then chain.Valid() else chain.Resumable())
    }

    /** The log lists the sealed lines in order, written or not. */
    ghost predicate Chained()
      reads this`log, chain
    {
      |log| == |chain.history| && forall i :: 0 <= i < |log| ==> EntryOf(log[i], chain.history[i])
    }

    /** Loads the chain once; a chain that can be resumed then stands at its end. */
    method Initialize(keys: bool) returns (ok: bool)
      modifies this`ready, chain`seqNo, chain`prevHmac
      ensures ok == ready == (old(ready) || (keys && chain.keyed))
      ensures old(Intact()) ==> Intact()
    {
      hide Valid, MacLaw, Linked, LoadedState;
      if ready {
        return true;
      }
      if !keys {
        return false;
      }
      ok := chain.Initialize();
      ready := ok;
    }

    /** Whether a call seals its line */
    predicate Seals(json: string, io: Io)
      reads this`ready
    {
      Braced(json) && io.hashed && chain.keyed && (ready || io.keys)
    }

    /** One call that tries to seal and write a line. A line that is not sealed leaves no trace; one that is
        goes to the chain and to the log, and to the files if the result is true. */
    twostate predicate Step(json: string, io: Io, ok: bool)
      reads this, chain
    {
      var n := |old(log)|;
      if !old(Seals(json, io)) then
        && !ok && (log, files) == old((log, files))
        && (streamOpen, streamGood, openDate, partIndex) == old((streamOpen, streamGood, openDate, partIndex))
        && (chain.history, chain.file) == old((chain.history, chain.file))
      else
        && |chain.history| == n + 1 && chain.history[..n] == old(chain.history)
        && chain.history[n].body == json && json != ""
        && |log| == n + 1 && log[..n] == old(log) && Logged(log[n], LineOf(chain.history[n]), io, ok)
        && Placed(LineOf(chain.history[n]), io, ok)
    }

    /** The chain stays whole. A state that is saved completely lets a new process go on, also after failed
        saves; one that is not does not. */
    twostate predicate Resumed(json: string, io: Io)
      reads this`ready, chain
    {
      old(Intact()) && |chain.history| < SEQ_LIMIT ==>
        && Intact()
        && (if !old(Seals(json, io)) then chain.Resumable() == old(chain.Resumable())
            else if io.saving == Complete then chain.Resumable()
            else old(chain.Resumable()) ==> !chain.Resumable())
    }

    /** The next sealed line, or "" */
    method Seal(json: string, io: Io) returns (text: string)
      requires MacLaw(chain.mac)
      modifies this`ready, chain
      ensures Resumed(json, io)
      ensures
        if old(Seals(json, io)) then
          && |chain.history| == |old(chain.history)| + 1 && chain.history[..|old(chain.history)|] == old(chain.history)
          && var r := chain.history[|old(chain.history)|];
             r.body == json && json != "" && text == LineOf(r) && text != ""
        else text == "" && (chain.history, chain.file) == old((chain.history, chain.file))
    {
      hide MacLaw, Linked, LoadedState, StateText, SavedFile, SealedLine, Material;
      var ok := Initialize(io.keys);
      if !ok {
        return "";
      }
      text := chain.SealJsonLine(json, io.hashed, io.saving);
    }

    /** What both ways of writing do under the lock. */
    method SealAndWrite(json: string, io: Io) returns (ok: bool)
      requires Valid() && Chained() && ValidIo(io)
      modifies this, chain
      ensures Valid() && Chained() && Step(json, io, ok) && Kept(io) && Resumed(json, io)
    {
      hide Valid, Sound, OnCourse, NextPart, Fits, Readable, Seals, Resumed, SealedLine;
      Laws();
      var text := Seal(json, io);
      if text == "" {
        return false;
      }
      ok := WriteEncryptedLine(text, io);
    }

    method Write(event: AuditEvent, io: Io) returns (ok: bool)
      requires Valid() && Chained() && ValidIo(io)
      modifies this, chain
      ensures var json := Serialized(if event.host == "" then event.(host := hostname) else event);
        Valid() && Chained() && Step(json, io, ok) && Kept(io) && Resumed(json, io)
    {
      hide Valid, Sound, OnCourse, NextPart, Fits, Readable, Serialized, MacLaw, Linked, LoadedState, SealedLine;
      var enriched := event;
      if enriched.host == "" {
        enriched := enriched.(host := hostname);
      }
      var json := SerializeEventJson(enriched);
      ok := SealAndWrite(json, io);
    }

    method WriteRawJsonLine(jsonLine: string, io: Io) returns (ok: bool)
      requires Valid() && Chained() && ValidIo(io)
      modifies this, chain
      ensures Valid() && Chained() && Step(jsonLine, io, ok) && Kept(io) && Resumed(jsonLine, io)
    {
      hide Valid, Sound, OnCourse, NextPart, Fits, Readable, MacLaw, Linked, LoadedState, SealedLine;
      if jsonLine == "" {
        return false;
      }
      ok := SealAndWrite(jsonLine, io);
    }
  }

  /** A new process over the files of the old one. It goes on sealing exactly if the state file is up to date.
      It is on course for a day exactly if the part that its first line goes to, part 0 or if that is full part 1,
      is the last one with anything in it, ends in a line break and is not past the limit. */
  method Restart(w: Writer) returns (v: Writer)
    requires w.Valid() && w.Chained()
    ensures fresh(v) && fresh(v.chain) && v.Valid() && v.Chained() && !v.ready && !v.streamOpen
    ensures v.codec == w.codec && v.hostname == w.hostname && v.maxFileBytes == w.maxFileBytes
    ensures v.log == w.log && v.files == w.files
    ensures v.chain.mac == w.chain.mac && v.chain.keyed == w.chain.keyed
    ensures v.chain.history == w.chain.history && v.chain.file == w.chain.file
    ensures w.Intact() ==> (v.Intact() <==> w.chain.Resumable())
    ensures w.Sound() ==> v.Sound()
    ensures forall day :: w.OnCourse(day) ==>
      (v.OnCourse(day) <==>
        var p := Turn(w.files, day, 0, w.maxFileBytes);
        NoneAfter(w.files, day, p) && EndsLine(TextOf(w.files, Path(day, p)))
            && Size(w.files, Path(day, p)) <= w.maxFileBytes)
  {
    hide CipherLaw, Base64Law, FilesMatch, MacLaw, Linked, LoadedState, Tidy, NoneAfter, NoneLater, Path, TextOf,
      EndsLine;
    var chain := new Chain(w.chain.mac, w.chain.keyed, w.chain.file, w.chain.history);
    v := new Writer(w.codec, w.hostname, w.maxFileBytes, chain, w.files, w.log);
  }
}
