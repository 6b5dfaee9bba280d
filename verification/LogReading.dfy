/** Reading the log back as native/UserAuditSvc/src/decrypt_tool.cpp does, file by file and line by line, though in
    the order of the part numbers. */
module LogReading {
  import opened Options
  import opened HashChain
  import opened LogCrypto
  import opened LogFiles
  import opened EncryptedLogWriter

  // Lines of a file --------------------------------------------------------------------------------------

  /** The pieces of s that end in a line break. The start of a line at the end of s is left out. */
  function SplitLines(s: string): seq<string> {
    if s == "" then []
    else if s[|s| - 1] == '\n' then
      var start := LineStart(s, |s| - 1);
      SplitLines(s[..start]) + [s[start..|s| - 1]]
    else SplitLines(s[..|s| - 1])
  }

  /** Where the line that ends before position n begins */
  function LineStart(s: string, n: nat): (r: nat)
    requires n <= |s|
    ensures r <= n
  {
    if n == 0 || s[n - 1] == '\n' then n else LineStart(s, n - 1)
  }

  lemma {:induction false} LineStartAfter(t: string, l: string, s: string, n: nat)
    requires n <= |l| && LineBreakFree(l) && EndsLine(t)
    requires |s| >= |t| + n && s[..|t| + n] == t + l[..n]
    ensures LineStart(s, |t| + n) == |t|
    decreases n
  {
    assert t != "" && n == 0 ==> s[|t| - 1] == s[..|t|][|t| - 1];
    if n > 0 {
      var x := s[..|t| + n];
      assert s[|t| + n - 1] == x[|t| + n - 1] == l[n - 1];
      assert s[..|t| + n - 1] == x[..|t| + n - 1] == t + l[..n - 1];
      LineStartAfter(t, l, s, n - 1);
    }
  }

  lemma SplitLast(t: string, l: string)
    requires LineBreakFree(l) && EndsLine(t)
    ensures SplitLines(t + (l + "\n")) == SplitLines(t) + [l]
  {
    var s := t + (l + "\n");
    hide SplitLines;
    assert s[..|t| + |l|] == t + l[..|l|];
    LineStartAfter(t, l, s, |l|);
    hide LineBreakFree, LineStart;
    assert s[|s| - 1] == '\n' && |s| - 1 == |t| + |l|;
    assert s[..|t|] == t && s[|t|..|s| - 1] == l;
    SplitStep(s, |t|);
  }

  lemma SplitStep(s: string, start: nat)
    requires s != "" && s[|s| - 1] == '\n' && LineStart(s, |s| - 1) == start
    ensures SplitLines(s) == SplitLines(s[..start]) + [s[start..|s| - 1]]
  {
    hide LineStart;
  }

  /** The start of a line adds no line. */
  lemma {:induction false} SplitStart(t: string, l: string)
    requires LineBreakFree(l)
    ensures SplitLines(t + l) == SplitLines(t)
  {
    if l == "" {
      assert t + l == t;
    } else {
      var n := |l| - 1;
      SplitStart(t, l[..n]);
      assert (t + l)[..|t + l| - 1] == t + l[..n];
    }
  }

  lemma NoLines()
    ensures SplitLines("") == []
  {
  }

  // The lines of a part ----------------------------------------------------------------------------------

  predicate WrittenTo(e: Entry, d: string, p: nat) {
    e.line.Some? && e.date == d && e.part == p
  }

  /** The numbers of the lines that were written to a part, counted from 0 */
  function NumbersTo(log: seq<Entry>, d: string, p: nat): (r: seq<nat>)
    ensures forall i: nat :: i in r <==> i < |log| && WrittenTo(log[i], d, p)
    ensures forall j, k :: 0 <= j < k < |r| ==> r[j] < r[k]
  {
    if log == [] then []
    else
      var n := |log| - 1;
      var r := NumbersTo(log[..n], d, p);
      assert forall j :: 0 <= j < |r| ==> r[j] in r;
      if WrittenTo(log[n], d, p) then r + [n] else r
  }

  /** Piece k is the line with number r[k]. */
  ghost predicate PiecesOf(log: seq<Entry>, r: seq<nat>, pieces: seq<string>) {
    && |pieces| == |r|
    && forall k :: 0 <= k < |r| ==> r[k] < |log| && log[r[k]].line == Some(pieces[k])
  }

  lemma NoPieces(log: seq<Entry>)
    ensures PiecesOf(log, [], [])
  {
  }

  lemma MorePieces(l: seq<Entry>, r: seq<nat>, pieces: seq<string>, e: Entry)
    requires PiecesOf(l, r, pieces)
    ensures PiecesOf(l + [e], r, pieces)
    ensures e.line.Some? ==> PiecesOf(l + [e], r + [|l|], pieces + [e.line.value])
  {
  }

  lemma JoinPieces(log: seq<Entry>, r: seq<nat>, x: seq<string>, s: seq<nat>, y: seq<string>)
    requires PiecesOf(log, r, x) && PiecesOf(log, s, y)
    ensures PiecesOf(log, r + s, x + y)
  {
  }

  /** Where something follows, the text before it ends in a line break. */
  lemma EndsBefore(l: seq<Entry>, e: Entry)
    requires AllFormed(l) && Ordered(l + [e]) && e.chars != ""
    ensures EndsLine(PartText(l, e.date, e.part))
  {
    hide PartText, Formed;
    if PartText(l, e.date, e.part) != "" {
      var i := LastWriter(l, e.date, e.part);
      assert Formed(l[i]);
      assert (l + [e])[i] == l[i] && (l + [e])[|l|] == e;
      LineEnds(l[i]);
    }
  }

  /** The lines of a part's text are the lines that were written to it. */
  lemma {:induction false} PartLines(log: seq<Entry>, d: string, p: nat)
    requires AllFormed(log) && Ordered(log)
    ensures PiecesOf(log, NumbersTo(log, d, p), SplitLines(PartText(log, d, p)))
  {
    hide LineBreakFree, SplitLines, PiecesOf, EndsLine;
    if log == [] {
      NoLines();
      NoPieces(log);
      assert PartText(log, d, p) == "" && NumbersTo(log, d, p) == [];
    } else {
      var l, e := log[..|log| - 1], log[|log| - 1];
      assert log == l + [e] && Formed(e);
      PartLines(l, d, p);
      MorePieces(l, NumbersTo(l, d, p), SplitLines(PartText(l, d, p)), e);
      if e.date == d && e.part == p {
        if e.line.Some? {
          EndsBefore(l, e);
          SplitLast(PartText(l, d, p), e.line.value);
        } else {
          SplitStart(PartText(l, d, p), e.chars);
        }
      }
      PartTextLast(l, e, d, p);
      NumbersLast(l, e, d, p);
    }
  }

  lemma PartTextLast(l: seq<Entry>, e: Entry, d: string, p: nat)
    ensures PartText(l + [e], d, p) ==
      if e.date == d && e.part == p then PartText(l, d, p) + e.chars else PartText(l, d, p)
  {
    assert (l + [e])[..|l|] == l;
    assert PartText(l, d, p) + "" == PartText(l, d, p);
  }

  lemma NumbersLast(l: seq<Entry>, e: Entry, d: string, p: nat)
    ensures NumbersTo(l + [e], d, p) == if WrittenTo(e, d, p) then NumbersTo(l, d, p) + [|l|] else NumbersTo(l, d, p)
  {
    assert (l + [e])[..|l|] == l;
  }

  // The lines of a day -----------------------------------------------------------------------------------

  /** The lines of the first n parts of a day, file by file */
  function Pieces(files: map<string, string>, d: string, n: nat): seq<string> {
    if n == 0 then [] else Pieces(files, d, n - 1) + SplitLines(TextOf(files, Path(d, n - 1)))
  }

  /** The numbers of the lines that were written to them */
  function Numbers(log: seq<Entry>, d: string, n: nat): seq<nat> {
    if n == 0 then [] else Numbers(log, d, n - 1) + NumbersTo(log, d, n - 1)
  }

  lemma {:induction false} DayLines(files: map<string, string>, log: seq<Entry>, d: string, n: nat)
    requires FilesMatch(files, log) && AllFormed(log) && Ordered(log) && IsDate(d)
    ensures PiecesOf(log, Numbers(log, d, n), Pieces(files, d, n))
  {
    hide PiecesOf, SplitLines, PartText, NumbersTo, Path, Ordered, AllFormed;
    if n == 0 {
      NoPieces(log);
    } else {
      DayLines(files, log, d, n - 1);
      PartLines(log, d, n - 1);
      assert FileMatches(files, log, d, n - 1);
      JoinPieces(log, Numbers(log, d, n - 1), Pieces(files, d, n - 1), NumbersTo(log, d, n - 1),
        SplitLines(TextOf(files, Path(d, n - 1))));
    }
  }

  predicate WrittenBelow(e: Entry, d: string, n: nat) {
    e.line.Some? && e.date == d && e.part < n
  }

  /** Parts in order of their numbers hold the lines in the order in which they were written. */
  lemma {:induction false} NumbersIncrease(log: seq<Entry>, d: string, n: nat)
    requires AllFormed(log) && Ordered(log)
    ensures forall i: nat :: i in Numbers(log, d, n) <==> i < |log| && WrittenBelow(log[i], d, n)
    ensures forall j, k :: 0 <= j < k < |Numbers(log, d, n)| ==> Numbers(log, d, n)[j] < Numbers(log, d, n)[k]
  {
    hide Formed;
    if n > 0 {
      NumbersIncrease(log, d, n - 1);
      var r, s := Numbers(log, d, n - 1), NumbersTo(log, d, n - 1);
      forall i, j | i in r && j in s ensures i < j {
        assert Formed(log[i]) && Formed(log[j]);
        LineEnds(log[i]);
        LineEnds(log[j]);
        assert i != j && !(j < i && Follows(log[j], log[i]));
      }
      assert forall j :: 0 <= j < |r| ==> r[j] in r;
      assert forall k :: 0 <= k < |s| ==> s[k] in s;
    }
  }

  /** No line of the day was written to part n or a later one. */
  ghost predicate Below(log: seq<Entry>, d: string, n: nat) {
    forall i :: 0 <= i < |log| && log[i].line.Some? && log[i].date == d ==> log[i].part < n
  }

  /** Reading a day's parts in the order of their numbers, cutting each at its line breaks and decrypting the
      pieces gives lines of the chain, in the chain's order: all that were written that day. */
  lemma ReadDay(w: Writer, d: string, n: nat)
    requires w.Sound() && w.Chained() && IsDate(d) && Below(w.log, d, n)
    ensures var pieces, numbers := Pieces(w.files, d, n), Numbers(w.log, d, n);
      && |pieces| == |numbers|
      && (forall i: nat :: i in numbers <==> i < |w.log| && w.log[i].line.Some? && w.log[i].date == d)
      && (forall j, k :: 0 <= j < k < |numbers| ==> numbers[j] < numbers[k])
      && forall k :: 0 <= k < |pieces| ==>
        && numbers[k] < |w.chain.history| && w.chain.history[numbers[k]].body != ""
        && Decrypted(w.codec, pieces[k]) == Some(LineOf(w.chain.history[numbers[k]]))
  {
    hide CipherLaw, Base64Law, MacLaw, FilesMatch, Ordered, Bounded, Path, Pieces, Numbers, Decrypted, LineOf, Formed;
    ReadableFormed(w.codec, w.log);
    DayLines(w.files, w.log, d, n);
    NumbersIncrease(w.log, d, n);
    var pieces, numbers := Pieces(w.files, d, n), Numbers(w.log, d, n);
    forall k | 0 <= k < |pieces|
      ensures numbers[k] < |w.chain.history| && w.chain.history[numbers[k]].body != ""
      ensures Decrypted(w.codec, pieces[k]) == Some(LineOf(w.chain.history[numbers[k]]))
    {
      var i := numbers[k];
      assert EntryOf(w.log[i], w.chain.history[i]) && Readable(w.codec, w.log[i]);
    }
  }
}
