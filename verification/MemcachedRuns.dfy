/** Whole connections of the memcached session: when the way the bytes are cut into reads
    matters. */
module MemcachedRuns {
  import opened Pieces
  import opened TextSearch
  import opened MemcachedCommands
  import opened MemcachedSessions

  function Feed(s: Session, pieces: seq<string>): (r: Session)
    requires s.Valid()
    ensures r.Valid()
    decreases |pieces|
  {
    if pieces == [] then s else Feed(Run(s.Append(pieces[0])), pieces[1..])
  }

  // ----- the resumed search -----

  /** The read boundary falls between the two characters of a line end. */
  predicate SplitsCrlf(u: string, piece: string) {
    u != "" && piece != "" && u[|u| - 1] == '\r' && piece[0] == '\n'
  }

  /** Searching on from the end of what has been searched finds the line end that a search
      from the start would find, exactly unless the boundary splits it. */
  lemma ResumedSearch(u: string, piece: string)
    requires NoCrlf(u)
    ensures FindCrlfFrom(u + piece, |u|) == FindCrlf(u + piece) <==> !SplitsCrlf(u, piece)
  {
    var s := u + piece;
    forall i | 0 <= i < |u| - 1
      ensures !CrlfAt(s, i)
    {
      assert !CrlfAt(u, i);
    }
    assert u != "" ==> (CrlfAt(s, |u| - 1) <==> SplitsCrlf(u, piece));
    if SplitsCrlf(u, piece) {
      assert FindCrlf(s) == Some(|u| - 1);
    } else {
      assert forall i :: 0 <= i < |u| ==> !CrlfAt(s, i);
      SameFirst(s, 0, |u|);
    }
  }

  lemma SameFirst(s: string, a: nat, b: nat)
    requires a <= b <= |s| && forall i :: a <= i < b ==> !CrlfAt(s, i)
    ensures FindCrlfFrom(s, a) == FindCrlfFrom(s, b)
    decreases b - a
  {
    if a < b {
      assert !CrlfAt(s, a);
      SameFirst(s, a + 1, b);
    }
  }

  // ----- confluence -----

  /** While a command line is awaited, the last byte at hand is a carriage return and the
      next read starts with a line feed. */
  predicate BadSplit(s: Session, piece: string) {
    s.state == ReadCommandLine && SplitsCrlf(s.unread, piece)
  }

  predicate CleanSplits(s: Session, pieces: seq<string>)
    requires s.Valid()
    decreases |pieces|
  {
    pieces == [] || (!BadSplit(s, pieces[0]) && CleanSplits(Run(s.Append(pieces[0])), pieces[1..]))
  }

  function Unsearched(s: Session): Session {
    s.(searchPos := None)
  }

  /** Reading on after a message is reading everything at once, but for where the search for
      the line end starts. */
  lemma {:induction false} RunResumes(s: Session, more: string)
    requires s.Valid() && s.searchPos.None?
    ensures Run(s.Append(more)) == Run(Unsearched(Run(s)).Append(more))
    decreases |s.unread|
  {
    if Step(s).1 {
      StepOnMore(s, more);
      RunResumes(Step(s).0, more);
    } else {
      assert Unsearched(Run(s)) == s;
    }
  }

  lemma StepOnMore(s: Session, more: string)
    requires s.Valid() && s.searchPos.None? && Step(s).1
    ensures Step(s.Append(more)) == (Step(s).0.Append(more), true) && Step(s).0.searchPos.None?
  {
    if s.state == ReadCommandLine {
      var i := FindCrlf(s.unread).value;
      FindCrlfExtends(s.unread, more);
      TakeOnMore(s.unread, more, i);
      TakeLineOnMore(s, more, i);
    } else {
      TakeOnMore(s.unread, more, s.valueLen);
      TakeOnMore(s.unread, more, s.valueLen + 2);
      assert (s.unread + more)[s.valueLen..s.valueLen + 2] == s.unread[s.valueLen..s.valueLen + 2];
    }
  }

  lemma TakeOnMore(u: string, more: string, n: nat)
    requires n <= |u|
    ensures (u + more)[..n] == u[..n] && (u + more)[n..] == u[n..] + more
  {
  }

  /** A command does not look at the bytes behind its line. */
  lemma CommandIgnoresUnread(s: Session, request: string, unread: string)
    ensures DoRequestCommand(s.(unread := unread), request) ==
            (DoRequestCommand(s, request).0.(unread := unread), DoRequestCommand(s, request).1)
  {
    hide ReadNumber, Words;
  }

  lemma TakeLineOnMore(s: Session, more: string, i: nat)
    requires s.Valid() && s.state == ReadCommandLine && i + 2 <= |s.unread|
    ensures TakeLine(s.Append(more), i) == TakeLine(s, i).Append(more)
  {
    TakeOnMore(s.unread, more, i);
    TakeOnMore(s.unread, more, i + 2);
    CommandIgnoresUnread(s.TakeUp(s.unread[..i]), s.unread[..i], s.unread + more);
  }

  /** A session that has stopped reading for want of bytes. */
  predicate Settled(s: Session) {
    s.Valid() && (s.state == ReadCommandLine ==> s.searchPos == Some(|s.unread|) && NoCrlf(s.unread))
  }

  lemma {:induction false} RunSettles(s: Session)
    requires s.Valid() && (s.searchPos.Some? ==> Settled(s.(unread := s.unread[..s.searchPos.value])))
    requires s.searchPos.Some? ==> !SplitsCrlf(s.unread[..s.searchPos.value], s.unread[s.searchPos.value..])
    ensures Settled(Run(s))
    decreases |s.unread|
  {
    if s.searchPos.Some? {
      var p := s.searchPos.value;
      assert s.unread == s.unread[..p] + s.unread[p..];
      ResumedSearch(s.unread[..p], s.unread[p..]);
    }
    if Step(s).1 {
      RunSettles(Step(s).0);
    }
  }

  /** At a clean split the memory of the search does no harm. */
  lemma SearchPosHarmless(s: Session, piece: string)
    requires Settled(s) && !BadSplit(s, piece)
    ensures Run(s.Append(piece)) == Run(Unsearched(s).Append(piece))
  {
    if s.state == ReadCommandLine {
      var u := s.unread + piece;
      ResumedSearch(s.unread, piece);
      var found := FindCrlfFrom(u, |s.unread|);
      if found.Some? {
        TakeLineIgnoresSearch(s.Append(piece), found.value);
      }
    }
  }

  lemma TakeLineIgnoresSearch(s: Session, i: nat)
    requires s.Valid() && s.state == ReadCommandLine && i + 2 <= |s.unread|
    ensures TakeLine(Unsearched(s), i) == TakeLine(s, i)
  {
    var request := s.unread[..i];
    CommandIgnoresSearch(s.TakeUp(request), request, None);
  }

  lemma CommandIgnoresSearch(s: Session, request: string, searchPos: Option<nat>)
    ensures DoRequestCommand(s.(searchPos := searchPos), request) ==
            (DoRequestCommand(s, request).0.(searchPos := searchPos), DoRequestCommand(s, request).1)
  {
    hide ReadNumber, Words;
  }

  lemma {:induction false} CleanConfluence(s: Session, pieces: seq<string>)
    requires Settled(s) && CleanSplits(s, pieces) && pieces != [] && forall i :: 0 <= i < |pieces| ==> pieces[i] != ""
    ensures Feed(s, pieces) == Run(Unsearched(s).Append(Concat(pieces)))
    ensures Settled(Feed(s, pieces))
    decreases |pieces|
  {
    hide Run;
    var t := Run(s.Append(pieces[0]));
    SearchPosHarmless(s, pieces[0]);
    RunSettles(Unsearched(s).Append(pieces[0]));
    if |pieces| == 1 {
      EmptyIsUnit(pieces[0]);
      assert pieces[1..] == [];
    } else {
      CleanConfluence(t, pieces[1..]);
      RunResumes(Unsearched(s).Append(pieces[0]), Concat(pieces[1..]));
      AppendConcat(Unsearched(s), pieces);
    }
  }

  // ----- what a bad split does -----

  lemma {:induction false} LogsGrow(s: Session)
    requires s.Valid()
    ensures s.events <= Run(s).events && s.lines <= Run(s).lines
    decreases |s.unread|
  {
    if Step(s).1 {
      StepLogs(s);
      LogsGrow(Step(s).0);
    }
  }

  lemma StepLogs(s: Session)
    requires s.Valid() && Step(s).1
    ensures s.events <= Step(s).0.events && s.lines <= Step(s).0.lines
    ensures s.state == ReadCommandLine ==>
              var from := if s.searchPos.Some? then s.searchPos.value else 0;
              FindCrlfFrom(s.unread, from).Some? &&
              Step(s).0.lines == s.lines + [s.unread[..FindCrlfFrom(s.unread, from).value]]
  {
    if s.state == ReadCommandLine {
      var from := if s.searchPos.Some? then s.searchPos.value else 0;
      var i := FindCrlfFrom(s.unread, from).value;
      CommandKeeps(s.TakeUp(s.unread[..i]), s.unread[..i]);
    }
  }

  /** The command line taken up next in a run. */
  lemma NextLine(s: Session, i: nat)
    requires s.Valid() && s.state == ReadCommandLine
    requires FindCrlfFrom(s.unread, if s.searchPos.Some? then s.searchPos.value else 0) == Some(i)
    ensures s.lines < Run(s).lines && Run(s).lines[|s.lines|] == s.unread[..i]
  {
    StepLogs(s);
    LogsGrow(Step(s).0);
    assert Step(s).0.lines[|s.lines|] == s.unread[..i];
  }

  /** The next command line taken up behind `done` holds a line end, or none is taken up
      although the bytes at hand hold one: the one at `at`, which is not searched any more. */
  predicate Missed(s: Session, done: seq<string>, at: nat) {
    if s.lines == done then
      s.state == ReadCommandLine && s.searchPos.Some? && at < s.searchPos.value && CrlfAt(s.unread, at)
    else
      done < s.lines && CrlfAt(s.lines[|done|], at)
  }

  lemma MissedStays(s: Session, done: seq<string>, at: nat, piece: string)
    requires s.Valid() && Missed(s, done, at)
    ensures Missed(Run(s.Append(piece)), done, at)
  {
    var x := s.Append(piece);
    if s.lines != done {
      LogsGrow(x);
    } else {
      MissedAgain(x, at);
    }
  }

  /** A search that starts behind the line end does not find it. */
  lemma MissedAgain(x: Session, at: nat)
    requires x.Valid() && x.state == ReadCommandLine && x.searchPos.Some?
    requires at < x.searchPos.value && CrlfAt(x.unread, at)
    ensures Missed(Run(x), x.lines, at)
  {
    match FindCrlfFrom(x.unread, x.searchPos.value)
    case None =>
    case Some(i) =>
      assert at + 1 < i;
      assert CrlfAt(x.unread[..i], at);
      NextLine(x, i);
  }

  lemma {:induction false} MissedForEver(s: Session, done: seq<string>, at: nat, pieces: seq<string>)
    requires s.Valid() && Missed(s, done, at)
    ensures Missed(Feed(s, pieces), done, at)
    decreases |pieces|
  {
    if pieces != [] {
      MissedStays(s, done, at, pieces[0]);
      MissedForEver(Run(s.Append(pieces[0])), done, at, pieces[1..]);
    }
  }

  /** Read at once, the line end is found. */
  lemma LineFound(s: Session, piece: string)
    requires Settled(s) && BadSplit(s, piece)
    ensures var r := Run(Unsearched(s).Append(piece));
            s.lines < r.lines && r.lines[|s.lines|] == s.unread[..|s.unread| - 1]
  {
    var at := |s.unread| - 1;
    var y := Unsearched(s).Append(piece);
    assert CrlfAt(y.unread, at);
    forall i | 0 <= i < at
      ensures !CrlfAt(y.unread, i)
    {
      assert !CrlfAt(s.unread, i);
    }
    assert FindCrlfFrom(y.unread, 0) == Some(at);
    NextLine(y, at);
    assert y.unread[..at] == s.unread[..at];
  }

  lemma BadSplitDiverges(s: Session, pieces: seq<string>)
    requires Settled(s) && pieces != [] && BadSplit(s, pieces[0])
    ensures Feed(s, pieces).lines != Run(Unsearched(s).Append(Concat(pieces))).lines
  {
    var at := |s.unread| - 1;
    assert CrlfAt(s.Append(pieces[0]).unread, at);
    MissedAgain(s.Append(pieces[0]), at);
    MissedForEver(Run(s.Append(pieces[0])), s.lines, at, pieces[1..]);
    ConcatFront(pieces);
    LineFound(s, Concat(pieces));
  }

  lemma {:induction false} DirtyDiverges(s: Session, pieces: seq<string>)
    requires Settled(s) && !CleanSplits(s, pieces) && forall i :: 0 <= i < |pieces| ==> pieces[i] != ""
    ensures Feed(s, pieces).lines != Run(Unsearched(s).Append(Concat(pieces))).lines
    decreases |pieces|
  {
    if BadSplit(s, pieces[0]) {
      BadSplitDiverges(s, pieces);
    } else {
      SearchPosHarmless(s, pieces[0]);
      RunSettles(Unsearched(s).Append(pieces[0]));
      DirtyDiverges(Run(s.Append(pieces[0])), pieces[1..]);
      RunResumes(Unsearched(s).Append(pieces[0]), Concat(pieces[1..]));
      AppendConcat(Unsearched(s), pieces);
    }
  }

  lemma AppendConcat(s: Session, pieces: seq<string>)
    requires pieces != []
    ensures s.Append(pieces[0]).Append(Concat(pieces[1..])) == s.Append(Concat(pieces))
  {
    ConcatFront(pieces);
    assert s.unread + pieces[0] + Concat(pieces[1..]) == s.unread + (pieces[0] + Concat(pieces[1..]));
  }

  /** A session at the start of a command with nothing at hand. */
  predicate AtStart(s: Session) {
    s.Valid() && s.state == ReadCommandLine && s.searchPos.None? && s.unread == ""
  }

  lemma StartSettles(s: Session, pieces: seq<string>)
    requires AtStart(s) && pieces != []
    ensures Settled(Run(s)) && Unsearched(Run(s)) == s && Run(s).unread == ""
    ensures Feed(Run(s), pieces) == Feed(s, pieces)
    ensures CleanSplits(Run(s), pieces) == CleanSplits(s, pieces)
  {
    assert Step(s) == (s.(searchPos := Some(0)), false);
    SearchPosHarmless(Run(s), pieces[0]);
  }

  /** Over any connection the command lines taken up are those of a single read of the same
      bytes if and only if no read boundary falls between carriage return and line feed while
      a command line is awaited. The stores, replies, lookups, leftover bytes and state are
      then those of a single read too. */
  lemma ConfluenceExact(s: Session, pieces: seq<string>)
    requires AtStart(s) && pieces != [] && forall i :: 0 <= i < |pieces| ==> pieces[i] != ""
    ensures Feed(s, pieces).lines == Run(s.Append(Concat(pieces))).lines <==> CleanSplits(s, pieces)
    ensures CleanSplits(s, pieces) ==> Feed(s, pieces) == Run(s.Append(Concat(pieces)))
  {
    StartSettles(s, pieces);
    if CleanSplits(s, pieces) {
      CleanConfluence(Run(s), pieces);
    } else {
      DirtyDiverges(Run(s), pieces);
    }
  }

  /** What a caller can see from the reads alone: if none ends in a carriage return with the
      next one starting in a line feed, all splits are clean. */
  lemma {:induction false} CleanByBytes(s: Session, pieces: seq<string>)
    requires s.Valid() && forall i :: 0 <= i < |pieces| ==> pieces[i] != ""
    requires pieces != [] ==> !SplitsCrlf(s.unread, pieces[0])
    requires forall i :: 0 <= i < |pieces| - 1 ==> !SplitsCrlf(pieces[i], pieces[i + 1])
    ensures CleanSplits(s, pieces)
    decreases |pieces|
  {
    if pieces != [] {
      var rest := pieces[1..];
      if rest != [] {
        BoundaryKept(s, pieces[0], pieces[1]);
      }
      forall i | 0 <= i < |rest| - 1
        ensures !SplitsCrlf(rest[i], rest[i + 1])
      {
        assert !SplitsCrlf(pieces[i + 1], pieces[i + 2]);
      }
      CleanByBytes(Run(s.Append(pieces[0])), rest);
    }
  }

  /** The last unread byte, if any is left, is the last one read. */
  lemma BoundaryKept(s: Session, piece: string, next: string)
    requires s.Valid() && piece != "" && !SplitsCrlf(piece, next)
    ensures !SplitsCrlf(Run(s.Append(piece)).unread, next)
  {
    var x := s.Append(piece);
    RunLeavesSuffix(x);
    var left := Run(x).unread;
    if left != "" {
      assert left[|left| - 1] == x.unread[|x.unread| - 1] == piece[|piece| - 1];
    }
  }

  predicate EndsIn(u: string, v: string) {
    |v| <= |u| && v == u[|u| - |v|..]
  }

  lemma {:induction false} RunLeavesSuffix(s: Session)
    requires s.Valid()
    ensures EndsIn(s.unread, Run(s).unread)
    decreases |s.unread|
  {
    var t := Step(s).0;
    StepLeavesSuffix(s);
    if Step(s).1 {
      RunLeavesSuffix(t);
      SuffixOfSuffix(s.unread, t.unread, Run(t).unread);
    }
  }

  lemma StepLeavesSuffix(s: Session)
    requires s.Valid()
    ensures EndsIn(s.unread, Step(s).0.unread)
  {
  }

  lemma SuffixOfSuffix(a: string, b: string, c: string)
    requires EndsIn(a, b) && EndsIn(b, c)
    ensures EndsIn(a, c)
  {
  }

  /** What the outside can tell of a session: all but the cut into command lines. */
  function Outwardly(s: Session): Session {
    s.(lines := [])
  }

  /** A quit command split between CR and LF: the connection is never shut down, and the
      command stays in the buffer, where the search does not look at it again. */
  lemma LostCommand(s: Session)
    requires AtStart(s)
    ensures var pieces := ["quit" + ['\r'], ['\n']];
            var r, atOnce := Feed(s, pieces), Run(s.Append(Concat(pieces)));
            && r.events == s.events && r.unread == "quit" + CRLF && r.state == ReadCommandLine
            && atOnce.events == s.events + [Shutdown] && atOnce.unread == ""
  {
    var line := "quit";
    LostLine(s, line);
    QuitTaken(s.(unread := line + CRLF), line);
  }

  lemma LostLine(s: Session, line: string)
    requires AtStart(s) && '\r' !in line
    ensures Feed(s, [line + ['\r'], ['\n']]) == s.(unread := line + CRLF, searchPos := Some(|line| + 2))
    ensures s.Append(Concat([line + ['\r'], ['\n']])) == s.(unread := line + CRLF)
  {
    var x, all := line + ['\r'], line + CRLF;
    assert all == x + ['\n'];
    TwoReads(s, x, ['\n'], all);
    assert FindCrlfFrom(all, |x|).None?;
  }

  lemma QuitTaken(s: Session, line: string)
    requires s.Valid() && s.state == ReadCommandLine && s.searchPos.None?
    requires line == "quit" && s.unread == line + CRLF
    ensures Run(s).events == s.events + [Shutdown] && Run(s).unread == ""
  {
    EmptyIsUnit(line + CRLF);
    LineAtOnce(s, line, "");
    QuitCommand(s.TakeUp(line), line);
    NothingAtHand(TakeLine(s, |line|));
  }

  lemma QuitCommand(s: Session, line: string)
    requires line == "quit"
    ensures DoRequestCommand(s, line) == (s.(command := Quit).Log(Shutdown), false)
  {
    LastWord(line);
  }

  lemma TwoReads(s: Session, x: string, y: string, xy: string)
    requires AtStart(s) && NoCrlf(x) && xy == x + y
    ensures Run(s.Append(x)) == s.(unread := x, searchPos := Some(|x|))
    ensures Feed(s, [x, y]) == Run(s.(unread := xy, searchPos := Some(|x|)))
    ensures s.Append(Concat([x, y])) == s.(unread := xy)
  {
    EmptyIsUnit(x);
    EmptyIsUnit(y);
    EmptyIsUnit(xy);
    assert Step(s.Append(x)) == (s.(unread := x, searchPos := Some(|x|)), false);
    assert [x, y][1..] == [y] && [y][1..] == [];
    assert Feed(s, [x, y]) == Feed(Run(s.Append(x)), [y]);
    ConcatFront([x, y]);
    ConcatFront([y]);
  }

  lemma LineAtOnce(s: Session, line: string, rest: string)
    requires s.Valid() && s.state == ReadCommandLine && s.searchPos.None? && NoCrlf(line)
    requires s.unread == line + CRLF + rest
    ensures Step(s) == (TakeLine(s, |line|), true)
    ensures s.unread[..|line|] == line && s.unread[|line| + 2..] == rest
  {
    FindCrlfOfLine(line, rest);
  }

  predicate IsUnknown(word: string) {
    IsWord(word) && '\r' !in word && word != "get" && word != "set" && word != "quit"
  }

  /** The converse of the last clause of `ConfluenceExact` does not hold: a line end missed
      between two unknown commands goes unnoticed, as neither of them is answered. */
  lemma SilentLoss(s: Session, a: string, b: string)
    requires AtStart(s) && IsUnknown(a) && IsUnknown(b)
    ensures var pieces := [a + ['\r'], ['\n'] + b + CRLF];
            && !CleanSplits(s, pieces)
            && Outwardly(Feed(s, pieces)) == Outwardly(Run(s.Append(Concat(pieces))))
  {
    var all := a + CRLF + (b + CRLF);
    assert all == (a + ['\r']) + (['\n'] + b + CRLF);
    TwoReads(s, a + ['\r'], ['\n'] + b + CRLF, all);
    SilentAtOnce(s, a, b);
    SilentMissed(s, a, b, all);
    FirstSplitBad(s, a + ['\r'], ['\n'] + b + CRLF);
  }

  lemma FirstSplitBad(s: Session, x: string, y: string)
    requires AtStart(s) && Run(s.Append(x)).state == ReadCommandLine && SplitsCrlf(Run(s.Append(x)).unread, y)
    ensures !CleanSplits(s, [x, y])
  {
    assert [x, y][1..][0] == y;
  }

  lemma SilentAtOnce(s: Session, a: string, b: string)
    requires AtStart(s) && IsUnknown(a) && IsUnknown(b)
    ensures Outwardly(Run(s.(unread := a + CRLF + (b + CRLF)))) == Outwardly(s.(searchPos := Some(0)))
  {
    var t := s.(unread := b + CRLF, lines := s.lines + [a]);
    UnknownLine(s.(unread := a + CRLF + t.unread), a, t.unread);
    EmptyIsUnit(t.unread);
    UnknownLine(t, b, "");
    NothingAtHand(t.(unread := "", lines := t.lines + [b]));
  }

  lemma UnknownLine(s: Session, word: string, rest: string)
    requires s.Valid() && s.state == ReadCommandLine && s.searchPos.None?
    requires IsUnknown(word) && s.unread == word + CRLF + rest
    ensures Run(s) == Run(s.(unread := rest, lines := s.lines + [word]))
  {
    FindCrlfOfLine(word, rest);
    LineAtOnce(s, word, rest);
    UnknownSkipped(s, |word|);
  }

  lemma SilentMissed(s: Session, a: string, b: string, all: string)
    requires AtStart(s) && IsUnknown(a) && IsUnknown(b) && all == a + CRLF + (b + CRLF)
    ensures Outwardly(Run(s.(unread := all, searchPos := Some(|a| + 1)))) == Outwardly(s.(searchPos := Some(0)))
  {
    hide Run;
    var i := |a| + 2 + |b|;
    assert CrlfAt(all, i);
    assert forall k :: |a| + 1 <= k < i ==> all[k] != '\r';
    assert all[..i] == a + CRLF + b && all[i + 2..] == "" && all[|a|] == '\r';
    UnknownSkipped(s.(unread := all, searchPos := Some(|a| + 1)), i);
    NothingAtHand(s.(unread := all[i + 2..], lines := s.lines + [all[..i]]));
  }

  lemma NothingAtHand(s: Session)
    requires AtStart(s)
    ensures Run(s) == s.(searchPos := Some(0))
  {
    assert Step(s) == (s.(searchPos := Some(0)), false);
  }

  lemma UnknownSkipped(s: Session, i: nat)
    requires s.Valid() && s.state == ReadCommandLine
    requires FindCrlfFrom(s.unread, if s.searchPos.Some? then s.searchPos.value else 0) == Some(i)
    requires var word := s.unread[..i]; IsWord(word) && word != "get" && word != "set" && word != "quit"
    ensures Run(s) == Run(s.(unread := s.unread[i + 2..], searchPos := None, lines := s.lines + [s.unread[..i]]))
  {
    LastWord(s.unread[..i]);
  }
}
