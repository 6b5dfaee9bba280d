/** The part files of native/UserAuditSvc/src/encrypted_log_writer.cpp: their names, what they hold, and when a day's
    lines are in them in order. */
module LogFiles {
  import opened Options
  import opened EventSerializer
  import opened HashChain
  import opened LogCrypto

  // File names -------------------------------------------------------------------------------------------

  const EXTENSION: string := ".jsonl.enc"

  /** current_file_path, below the log directory */
  function Path(date: string, part: nat): string {
    date + (if part > 0 then "." + Digits(part) else "") + EXTENSION
  }

  predicate IsDate(d: string) {
    |d| == 10
  }

  lemma PathParts(d: string, p: nat)
    requires IsDate(d)
    ensures var x := Path(d, p);
      && |x| == (if p > 0 then 21 + |Digits(p)| else 20) && x[..10] == d
      && (p > 0 ==> x[10] == '.' && x[11..11 + |Digits(p)|] == Digits(p)) && x[|x| - 10..] == ".jsonl.enc"
  {
    hide Digits;
    assert |EXTENSION| == 10;
  }

  lemma PathInjective(d: string, p: nat, e: string, q: nat)
    requires IsDate(d) && IsDate(e) && Path(d, p) == Path(e, q)
    ensures d == e && p == q
  {
    hide Path, Digits;
    NumberOfDigits(p);
    NumberOfDigits(q);
    PathParts(d, p);
    PathParts(e, q);
  }

  /** Sorted by name, every later part of a day comes before its first part. */
  lemma PartsPrecedeInNameOrder(d: string, p: nat)
    requires IsDate(d) && p > 0
    ensures |Path(d, p)| > 11 && |Path(d, 0)| > 11
    ensures Path(d, p)[..11] == Path(d, 0)[..11] && Path(d, p)[11] < Path(d, 0)[11]
  {
    NumberOfDigits(p);
    var x, y := Path(d, p), Path(d, 0);
    assert x == d + "." + Digits(p) + EXTENSION && y == d + EXTENSION;
    assert x[11] == Digits(p)[0] && y[11] == EXTENSION[1] == 'j';
    assert x[..11] == d + "." && y[..11] == d + ".";
  }

  // What has been logged -----------------------------------------------------------------------------------

  /** A sealed line and what became of it: its encrypted form if it was written, and the characters that have
      reached the file of a date and part. Of a line that was cut short that is the start. */
  datatype Entry = Entry(text: string, date: string, part: nat, line: Option<string>, chars: string)

  /** A written line is in its file with a line break, and of others there is no line break there. */
  predicate Formed(e: Entry) {
    && (e.chars != "" ==> IsDate(e.date))
    && match e.line
       case Some(line) => LineBreakFree(line) && e.chars == line + "\n"
       case None => LineBreakFree(e.chars)
  }

  ghost predicate AllFormed(log: seq<Entry>) {
    forall i :: 0 <= i < |log| ==> Formed(log[i])
  }

  /** What has reached a day's part */
  function PartText(log: seq<Entry>, d: string, p: nat): string {
    if log == [] then ""
    else
      var e := log[|log| - 1];
      PartText(log[..|log| - 1], d, p) + (if e.date == d && e.part == p then e.chars else "")
  }

  function TextOf(files: map<string, string>, name: string): string {
    if name in files then files[name] else ""
  }

  function Size(files: map<string, string>, name: string): nat {
    |TextOf(files, name)|
  }

  /** The files hold what has reached them and nothing else. */
  ghost predicate FilesMatch(files: map<string, string>, log: seq<Entry>) {
    forall d, p: nat :: IsDate(d) ==> FileMatches(files, log, d, p)
  }

  ghost predicate FileMatches(files: map<string, string>, log: seq<Entry>, d: string, p: nat) {
    PartText(log, d, p) == TextOf(files, Path(d, p))
  }

  /** Opening a file to append creates it. */
  function Touched(files: map<string, string>, name: string): map<string, string> {
    if name in files then files else files[name := ""]
  }

  lemma TouchedMatches(files: map<string, string>, log: seq<Entry>, d: string, p: nat)
    requires FilesMatch(files, log) && IsDate(d)
    ensures FilesMatch(Touched(files, Path(d, p)), log)
  {
    hide PartText, Path;
    forall e, q: nat | IsDate(e) ensures FileMatches(Touched(files, Path(d, p)), log, e, q) {
      assert FileMatches(files, log, e, q);
    }
  }

  lemma LoggedMatches(files: map<string, string>, log: seq<Entry>, e: Entry)
    requires FilesMatch(files, log) && IsDate(e.date)
    ensures FilesMatch(files[Path(e.date, e.part) := TextOf(files, Path(e.date, e.part)) + e.chars], log + [e])
  {
    var log' := log + [e];
    var files' := files[Path(e.date, e.part) := TextOf(files, Path(e.date, e.part)) + e.chars];
    assert log'[..|log|] == log;
    hide Path;
    forall d, q: nat | IsDate(d) ensures FileMatches(files', log', d, q) {
      assert FileMatches(files, log, d, q);
      if Path(d, q) == Path(e.date, e.part) { PathInjective(e.date, e.part, d, q); }
    }
  }

  lemma UnloggedMatches(files: map<string, string>, log: seq<Entry>, e: Entry)
    requires FilesMatch(files, log) && e.chars == ""
    ensures FilesMatch(files, log + [e])
  {
    hide Path;
    var log' := log + [e];
    assert log'[..|log|] == log;
    forall d, q: nat | IsDate(d) ensures FileMatches(files, log', d, q) {
      assert FileMatches(files, log, d, q);
    }
  }

  // Days -------------------------------------------------------------------------------------------------

  /** d comes before e in the order of the letters, for dates that of the calendar. */
  predicate Earlier(d: string, e: string) {
    e != "" && (d == "" || d[0] < e[0] || (d[0] == e[0] && Earlier(d[1..], e[1..])))
  }

  predicate NotLater(d: string, e: string) {
    d == e || Earlier(d, e)
  }

  lemma {:induction false} EarlierTransitive(d: string, e: string, f: string)
    requires Earlier(d, e) && Earlier(e, f)
    ensures Earlier(d, f)
  {
    if d != "" && d[0] == e[0] && e[0] == f[0] {
      EarlierTransitive(d[1..], e[1..], f[1..]);
    }
  }

  lemma {:induction false} EarlierIrreflexive(d: string)
    ensures !Earlier(d, d)
  {
    if d != "" { EarlierIrreflexive(d[1..]); }
  }

  /** No file is of a day after d. */
  ghost predicate NoneLater(files: map<string, string>, d: string) {
    forall e, p: nat :: IsDate(e) && Path(e, p) in files ==> NotLater(e, d)
  }

  lemma NoneLaterStill(files: map<string, string>, d: string, e: string)
    requires NoneLater(files, d) && NotLater(d, e)
    ensures NoneLater(files, e)
  {
    hide Path;
    forall f, p: nat | IsDate(f) && Path(f, p) in files ensures NotLater(f, e) {
      if f != d && d != e { EarlierTransitive(f, d, e); }
    }
  }

  lemma NothingOfLaterDay(files: map<string, string>, d: string, e: string, p: nat)
    requires NoneLater(files, d) && Earlier(d, e) && IsDate(e)
    ensures Path(e, p) !in files
  {
    hide Path;
    if Path(e, p) in files {
      EarlierIrreflexive(e);
      if e != d { EarlierTransitive(e, d, e); }
    }
  }

  lemma NoneLaterWith(files: map<string, string>, d: string, p: nat, text: string)
    requires NoneLater(files, d) && IsDate(d)
    ensures NoneLater(files[Path(d, p) := text], d)
  {
    hide Path;
    forall e, q: nat | IsDate(e) && Path(e, q) in files[Path(d, p) := text] ensures NotLater(e, d) {
      if Path(e, q) == Path(d, p) { PathInjective(d, p, e, q); }
    }
  }

  // Parts ------------------------------------------------------------------------------------------------

  /** No part of the day after part p has anything in it. */
  ghost predicate NoneAfter(files: map<string, string>, d: string, p: nat) {
    forall q: nat :: q > p ==> Size(files, Path(d, q)) == 0
  }

  predicate EndsLine(text: string) {
    text == "" || text[|text| - 1] == '\n'
  }

  /** The part after a check of part p's size */
  function Turn(files: map<string, string>, d: string, p: nat, limit: nat): nat {
    if Size(files, Path(d, p)) >= limit then p + 1 else p
  }

  ghost predicate Bounded(files: map<string, string>, limit: nat) {
    forall name :: name in files ==> |files[name]| <= limit
  }

  /** f may come after e on a day: in a later part, or in the same one after a whole line. */
  predicate Follows(e: Entry, f: Entry) {
    e.part < f.part || (e.part == f.part && e.line.Some?)
  }

  /** What a day has put into files went to parts in order, and nothing was put behind the start of a line. */
  ghost predicate Ordered(log: seq<Entry>) {
    forall i, j :: 0 <= i < j < |log| && log[i].chars != "" && log[j].chars != "" && log[i].date == log[j].date
      ==> Follows(log[i], log[j])
  }

  /** The files hold the log, day by day in order, and no file has more than limit characters. */
  ghost predicate Tidy(files: map<string, string>, log: seq<Entry>, limit: nat) {
    FilesMatch(files, log) && Ordered(log) && Bounded(files, limit)
  }

  lemma {:induction false} HasText(log: seq<Entry>, i: nat)
    requires i < |log| && log[i].chars != ""
    ensures PartText(log, log[i].date, log[i].part) != ""
  {
    var n := |log| - 1;
    if i < n {
      HasText(log[..n], i);
      assert log[..n][i] == log[i];
    }
  }

  /** The last entry that put something into a part: the text ends as its characters do. */
  lemma {:induction false} LastWriter(log: seq<Entry>, d: string, p: nat) returns (i: nat)
    requires PartText(log, d, p) != ""
    ensures i < |log| && log[i].chars != "" && log[i].date == d && log[i].part == p
    ensures var t := PartText(log, d, p); t[|t| - 1] == log[i].chars[|log[i].chars| - 1]
  {
    var n := |log| - 1;
    if log[n].date == d && log[n].part == p && log[n].chars != "" {
      i := n;
    } else {
      i := LastWriter(log[..n], d, p);
    }
  }

  /** The start of a line is the end of its part. */
  lemma {:induction false} StartIsLast(log: seq<Entry>, i: nat)
    requires Ordered(log) && i < |log| && Formed(log[i]) && log[i].chars != "" && log[i].line.None?
    ensures !EndsLine(PartText(log, log[i].date, log[i].part))
  {
    var n := |log| - 1;
    if i < n {
      assert log[..n][i] == log[i];
      StartIsLast(log[..n], i);
    } else {
      var t := PartText(log, log[i].date, log[i].part);
      assert t[|t| - 1] == log[i].chars[|log[i].chars| - 1];
    }
  }

  /** The next characters of a day keep the order exactly if no later part has any, and the part that they go to
      ends in a line break. */
  lemma OrderedNext(files: map<string, string>, log: seq<Entry>, e: Entry)
    requires FilesMatch(files, log) && Ordered(log) && AllFormed(log) && Formed(e) && e.chars != ""
    ensures Ordered(log + [e]) <==>
      NoneAfter(files, e.date, e.part) && EndsLine(TextOf(files, Path(e.date, e.part)))
  {
    hide PartText, Path, Formed;
    var log', d, p := log + [e], e.date, e.part;
    assert IsDate(d) by { FormedDate(e); }
    assert FileMatches(files, log, d, p);
    if NoneAfter(files, d, p) && EndsLine(TextOf(files, Path(d, p))) {
      forall i | 0 <= i < |log| && log[i].chars != "" && log[i].date == d ensures Follows(log[i], e) {
        HasText(log, i);
        assert FileMatches(files, log, d, log[i].part);
        assert Size(files, Path(d, log[i].part)) > 0;
        if log[i].part == p && log[i].line.None? {
          assert Formed(log[i]);
          StartIsLast(log, i);
        }
      }
    } else {
      var q := p;
      if !NoneAfter(files, d, p) {
        q :| q > p && Size(files, Path(d, q)) != 0;
      }
      assert FileMatches(files, log, d, q);
      var i := LastWriter(log, d, q);
      assert Formed(log[i]);
      if log[i].line.Some? { LineEnds(log[i]); }
      assert log'[i] == log[i] && log'[|log|] == e;
    }
  }

  lemma FormedDate(e: Entry)
    requires Formed(e) && e.chars != ""
    ensures IsDate(e.date)
  {
  }

  lemma LineEnds(e: Entry)
    requires Formed(e) && e.line.Some?
    ensures e.chars != "" && e.chars[|e.chars| - 1] == '\n'
  {
  }

  /** The same of the size bound and the file's own size */
  lemma BoundedNext(files: map<string, string>, name: string, text: string, limit: nat)
    requires Bounded(files, limit)
    ensures Bounded(files[name := text], limit) <==> |text| <= limit
  {
    assert files[name := text][name] == text;
  }

  /** Characters can go to part p: no later part has any, part p ends in a line break, and it has room. */
  ghost predicate Fits(files: map<string, string>, d: string, p: nat, chars: string, limit: nat) {
    && NoneAfter(files, d, p) && EndsLine(TextOf(files, Path(d, p)))
    && Size(files, Path(d, p)) + |chars| <= limit
  }

  lemma FitsExactly(files: map<string, string>, log: seq<Entry>, e: Entry, limit: nat)
    requires Tidy(files, log, limit) && AllFormed(log) && Formed(e) && e.chars != ""
    ensures Tidy(files[Path(e.date, e.part) := TextOf(files, Path(e.date, e.part)) + e.chars], log + [e], limit)
      <==> Fits(files, e.date, e.part, e.chars, limit)
  {
    hide Path, Ordered, AllFormed, FilesMatch, NoneAfter, Bounded, EndsLine;
    LoggedMatches(files, log, e);
    OrderedNext(files, log, e);
    BoundedNext(files, Path(e.date, e.part), TextOf(files, Path(e.date, e.part)) + e.chars, limit);
  }

  /** What a write on a day has to find when the part that its line goes to is p. */
  ghost predicate Continuable(files: map<string, string>, d: string, p: nat, limit: nat) {
    && NoneAfter(files, d, p) && EndsLine(TextOf(files, Path(d, p)))
    && Size(files, Path(d, p)) <= limit
  }

  /** A part is ready for every line that can be framed exactly if this guard holds. */
  lemma ContinuableExactly(files: map<string, string>, d: string, p: nat, limit: nat)
    ensures Continuable(files, d, p, limit) <==>
      forall chars :: |chars| <= MAX_LINE ==> Fits(files, d, p, chars, limit + MAX_LINE)
  {
    hide Path, NoneAfter, EndsLine;
    var longest := seq(MAX_LINE, _ => 'A');
    assert |longest| <= MAX_LINE;
  }

  /** Files that differ in empty ones only */
  ghost predicate SameTexts(f: map<string, string>, g: map<string, string>) {
    forall name :: TextOf(f, name) == TextOf(g, name)
  }

  lemma SameTransitive(f: map<string, string>, g: map<string, string>, h: map<string, string>)
    requires SameTexts(f, g) && SameTexts(g, h)
    ensures SameTexts(f, h)
  {
    hide TextOf;
  }

  lemma SameParts(f: map<string, string>, g: map<string, string>, d: string, p: nat, limit: nat)
    requires SameTexts(f, g)
    ensures NoneAfter(f, d, p) <==> NoneAfter(g, d, p)
    ensures TextOf(f, Path(d, p)) == TextOf(g, Path(d, p)) && Turn(f, d, p, limit) == Turn(g, d, p, limit)
  {
    hide Path, TextOf;
  }

  /** After something has gone to the open part p, the last one of its day, the next line finds its part in order,
      and behind a line break unless that is part p. */
  lemma NextInOrder(files: map<string, string>, d: string, p: nat, text: string, limit: nat)
    requires NoneAfter(files, d, p) && IsDate(d)
    ensures var after := files[Path(d, p) := text];
      var q := Turn(after, d, Turn(after, d, p, limit), limit);
      && NoneAfter(after, d, q) && Size(after, Path(d, q)) <= limit
      && (q != p || EndsLine(text) ==> EndsLine(TextOf(after, Path(d, q))))
  {
    hide Path;
    var after := files[Path(d, p) := text];
    forall q: nat | q > p ensures Size(after, Path(d, q)) == 0 {
      assert Size(files, Path(d, q)) == 0;
      if Path(d, q) == Path(d, p) { PathInjective(d, p, d, q); }
    }
  }

  lemma TouchedLater(files: map<string, string>, d: string, p: nat)
    requires NoneLater(files, d) && IsDate(d)
    ensures NoneLater(Touched(files, Path(d, p)), d)
  {
    NoneLaterWith(files, d, p, "");
  }

  lemma SameFits(f: map<string, string>, g: map<string, string>, d: string, p: nat, chars: string, limit: nat)
    requires SameTexts(f, g)
    ensures Fits(f, d, p, chars, limit) <==> Fits(g, d, p, chars, limit)
  {
    hide Path, NoneAfter, EndsLine;
    SameParts(f, g, d, p, limit);
  }

  /** f may have been touched to become g. */
  lemma SameTouched(f: map<string, string>, g: map<string, string>, d: string, p: nat)
    ensures g == f || g == Touched(f, Path(d, p)) ==> SameTexts(f, g)
    ensures (g == f || g == Touched(f, Path(d, p))) && IsDate(d) && NoneLater(f, d) ==> NoneLater(g, d)
  {
    hide NoneLater, Path;
    if IsDate(d) && NoneLater(f, d) { TouchedLater(f, d, p); }
  }

  lemma NothingAdded(files: map<string, string>, log: seq<Entry>, e: Entry, limit: nat)
    requires Tidy(files, log, limit) && IsDate(e.date) && e.chars == "" && Path(e.date, e.part) in files
    ensures Tidy(files[Path(e.date, e.part) := TextOf(files, Path(e.date, e.part)) + e.chars], log + [e], limit)
  {
    hide Path;
    LoggedMatches(files, log, e);
    var name := Path(e.date, e.part);
    assert TextOf(files, name) + e.chars == files[name];
    assert files[name := files[name]] == files;
  }

  /** A part that was ready for a line in f is ready for it in g, which has the same texts. */
  lemma ReadyPart(f: map<string, string>, g: map<string, string>, d: string, p: nat, good: bool, chars: string,
      limit: nat)
    requires SameTexts(f, g) && NoneAfter(f, d, p) && Size(f, Path(d, p)) <= limit
    requires (good ==> EndsLine(TextOf(f, Path(d, p)))) && (chars != "" ==> good) && |chars| <= MAX_LINE
    ensures NoneAfter(g, d, p) && (chars != "" ==> Fits(g, d, p, chars, limit + MAX_LINE))
  {
    hide Path, NoneAfter, EndsLine;
    SameParts(f, g, d, p, limit);
  }

  lemma WholeLineEnds(text: string, line: string)
    ensures EndsLine(text + (line + "\n"))
  {
  }
}
