/** How long the parts of a day get when processes start on it again. */
module LogBounds {
  import opened LogCrypto
  import opened LogFiles

  /** What an entry adds to the sizes of the files */
  ghost predicate SizesGrow(f: map<string, string>, g: map<string, string>, e: Entry) {
    forall d, p: nat :: IsDate(d) ==> SizeGrows(f, g, e, d, p)
  }

  ghost predicate SizeGrows(f: map<string, string>, g: map<string, string>, e: Entry, d: string, p: nat) {
    Size(g, Path(d, p)) == Size(f, Path(d, p)) + if e.date == d && e.part == p then |e.chars| else 0
  }

  lemma GrowBy(f: map<string, string>, g: map<string, string>, log: seq<Entry>, e: Entry)
    requires FilesMatch(f, log) && FilesMatch(g, log + [e])
    ensures SizesGrow(f, g, e)
  {
    hide Path;
    forall d, p: nat | IsDate(d) ensures SizeGrows(f, g, e, d, p) {
      assert FileMatches(f, log, d, p) && FileMatches(g, log + [e], d, p);
      assert (log + [e])[..|log|] == log;
    }
  }

  /** The most that a file has which another line may still go to: one byte less than the limit */
  function Fullest(limit: nat): nat {
    if limit == 0 then 0 else limit - 1
  }

  /** Room for n lines beyond that */
  function Room(limit: nat, n: nat): nat {
    Fullest(limit) + n * MAX_LINE
  }

  /** The bound for a day on which k processes have started again */
  function Cap(limit: nat, k: nat): nat {
    Room(limit, k + 1)
  }

  ghost predicate Within(files: map<string, string>, d: string, p: nat, limit: nat) {
    Size(files, Path(d, p)) <= limit
  }

  /** A part of the day that this process can still come to is within a limit. */
  ghost predicate AheadWithin(files: map<string, string>, open: bool, part: nat, day: string, p: nat, limit: nat) {
    IsDate(day) && (open ==> p > part) ==> Within(files, day, p, limit)
  }

  /** No file goes beyond the bound of its day, given how often each day has seen a start, and the parts of the day
      that this process can still come to are one line below that. */
  ghost predicate Capped(files: map<string, string>, open: bool, part: nat, day: string, starts: string -> nat,
      limit: nat) {
    && (forall d, p: nat :: IsDate(d) ==> Within(files, d, p, Cap(limit, starts(d))))
    && (forall d, p: nat :: IsDate(d) && Earlier(day, d) ==> Within(files, d, p, 0))
    && (forall p: nat :: AheadWithin(files, open, part, day, p, Room(limit, starts(day))))
  }

  lemma CapReaches(files: map<string, string>, open: bool, part: nat, day: string, starts: string -> nat, limit: nat,
      open': bool, today: string)
    requires Capped(files, open, part, day, starts, limit) && NotLater(day, today) && IsDate(today)
    requires day == today ==> open' == open
    ensures Capped(files, open', part, today, starts, limit)
  {
    hide Path, Size;
    if day != today {
      forall d, p: nat | IsDate(d) && Earlier(today, d) ensures Within(files, d, p, 0) {
        EarlierTransitive(day, today, d);
      }
      forall p: nat ensures AheadWithin(files, open', part, today, p, Room(limit, starts(today))) {
        assert Within(files, today, p, 0);
      }
    }
  }

  /** An entry goes to a part that is not full, or to one that this process has not yet come to. */
  lemma CapKept(f: map<string, string>, g: map<string, string>, e: Entry, open: bool, part: nat, today: string,
      starts: string -> nat, limit: nat, next: nat)
    requires Capped(f, open, part, today, starts, limit) && SizesGrow(f, g, e) && IsDate(today)
    requires next == Turn(f, today, if open then Turn(f, today, part, limit) else 0, limit)
    requires (e.chars != "" ==> e.date == today && e.part == next) && |e.chars| <= MAX_LINE
    ensures Capped(g, true, next, today, starts, limit)
  {
    hide Path, Size;
    var k := starts(today);
    forall d, p: nat | IsDate(d) ensures Within(g, d, p, Cap(limit, starts(d))) {
      assert SizeGrows(f, g, e, d, p) && Within(f, d, p, Cap(limit, starts(d)));
      if d == today && p == next {
        assert AheadWithin(f, open, part, today, next, Room(limit, k));
      }
    }
    forall d, p: nat | IsDate(d) && Earlier(today, d) ensures Within(g, d, p, 0) {
      EarlierIrreflexive(today);
      assert SizeGrows(f, g, e, d, p) && Within(f, d, p, 0);
    }
    forall p: nat ensures AheadWithin(g, true, next, today, p, Room(limit, k)) {
      assert SizeGrows(f, g, e, today, p) && AheadWithin(f, open, part, today, p, Room(limit, k));
    }
  }

  /** A start on the day: what held of all parts holds of those that the new process can come to. */
  lemma CapStarted(files: map<string, string>, open: bool, part: nat, part': nat, day: string, starts: string -> nat,
      starts': string -> nat, limit: nat)
    requires Capped(files, open, part, day, starts, limit)
    requires forall d :: starts'(d) == if d == day then starts(d) + 1 else starts(d)
    ensures Capped(files, false, part', day, starts', limit)
  {
    hide Path, Size;
    forall d, p: nat | IsDate(d) ensures Within(files, d, p, Cap(limit, starts'(d))) {
      assert Within(files, d, p, Cap(limit, starts(d)));
    }
    forall p: nat ensures AheadWithin(files, false, part', day, p, Room(limit, starts'(day))) {
      assert IsDate(day) ==> Within(files, day, p, Cap(limit, starts(day)));
    }
  }
}
