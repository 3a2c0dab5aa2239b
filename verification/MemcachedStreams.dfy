/** Whole streams of set, get and quit commands: what they do, and which cuts into reads
    spoil them. */
module MemcachedStreams {
  import opened Pieces
  import opened TextSearch
  import opened MemcachedCommands
  import opened MemcachedSessions
  import opened MemcachedRuns
  import Decimal

  // ----- updates -----

  /** Key, flags, expiry and length are there, short and readable, and none is negative. */
  predicate WellFormedUpdate(args: seq<string>) {
    && |args| >= 4 && |args[0]| <= LONGEST_KEY
    && forall i :: 1 <= i < 4 ==> ReadNumber(args[i]).Some? && ReadNumber(args[i]).value >= 0
  }

  /** The key is short enough, and the numbers up to the `n`-th are there and readable. */
  predicate Readable(args: seq<string>, n: nat) {
    |args| > n && |args[0]| <= LONGEST_KEY && forall i :: 1 <= i <= n ==> ReadNumber(args[i]).Some?
  }

  function NumberAt(args: seq<string>, n: nat, otherwise: int): int {
    if n > 0 && Readable(args, n) then ReadNumber(args[n]).value else otherwise
  }

  /** Which updates are taken up, which one error reply each of the others gets, and which
      fields of the session it has overwritten by then. */
  lemma UpdateExact(s: Session, args: seq<string>)
    ensures var (t, good) := DoUpdate(s, args);
            && (good <==> WellFormedUpdate(args) && ReadNumber(args[3]).value < TOO_LARGE)
            && t == s.(events := s.events + (if good then []
                                             else if WellFormedUpdate(args) then [Reply(SERVER_ERROR)]
                                             else [Reply(CLIENT_ERROR)]),
                       key := if args == [] then s.key else args[0],
                       flag := NumberAt(args, 1, s.flag), exptime := NumberAt(args, 2, s.exptime),
                       valueLen := NumberAt(args, 3, s.valueLen))
  {
    hide ReadArguments, ReadNumber;
    if args != [] {
      ArgumentsExact(s.(key := args[0]), args);
      assert s.events + [] == s.events;
    }
  }

  lemma ArgumentsExact(s: Session, args: seq<string>)
    requires args != [] && s.key == args[0]
    ensures var (t, good) := ReadArguments(s, args[1..]);
            && (good <==> WellFormedUpdate(args))
            && t == s.(flag := NumberAt(args, 1, s.flag), exptime := NumberAt(args, 2, s.exptime),
                       valueLen := NumberAt(args, 3, s.valueLen))
  {
    hide ReadNumber;
    var more := args[1..];
    assert |args| > 1 ==> more[0] == args[1];
    assert |args| > 2 ==> more[1] == args[2];
    assert |args| > 3 ==> more[2] == args[3];
  }

  /** What a command line does but for an update: a line without a known command in front does
      nothing, a get without a key is answered with an error, and what follows the key of a
      get or the word quit is ignored. */
  lemma RequestExact(s: Session, request: string)
    ensures var words, r := Words(request), DoRequestCommand(s, request);
            && (words == [] || words[0] !in ["get", "set", "quit"] ==> r == (s, false))
            && (words == ["get"] ==> r == (s.(command := Get).Log(Reply(CLIENT_ERROR)), false))
            && (["get"] < words ==> r == (s.(command := Get).Log(Lookup(words[1])), true))
            && (["quit"] <= words ==> r == (s.(command := Quit).Log(Shutdown), false))
            && (["set"] <= words ==> r == DoUpdate(s.(command := Set), words[1..]))
  {
    hide DoUpdate, Words;
  }

  // ----- one command -----

  /** A set whose data has its line end behind it, one that has two other bytes there, a get
      and a quit. */
  datatype Command = SetItem(item: Item) | BadSet(item: Item, end: string) | GetKey(key: string) | Leave

  predicate IsKey(key: string) {
    IsWord(key) && '\r' !in key
  }

  predicate IsSet(c: Command) {
    c.SetItem? || c.BadSet?
  }

  predicate IsItem(item: Item) {
    && IsKey(item.key) && |item.key| <= LONGEST_KEY && |item.data| < TOO_LARGE
    && 0 <= item.flag < 0x8000_0000 && 0 <= item.exptime < 0x8000_0000
  }

  predicate IsCommand(c: Command) {
    match c
    case SetItem(item) => IsItem(item)
    case BadSet(item, end) => IsItem(item) && |end| == 2 && end != CRLF
    case GetKey(key) => IsKey(key)
    case Leave => true
  }

  /** All of the command line but its last word. */
  function Before(c: Command): seq<string>
    requires IsCommand(c)
  {
    match c
    case GetKey(_) => ["get"]
    case Leave => []
    case _ => ["set", c.item.key, Decimal.Text(c.item.flag), Decimal.Text(c.item.exptime)]
  }

  function Last(c: Command): string
    requires IsCommand(c)
  {
    match c
    case GetKey(key) => key
    case Leave => "quit"
    case _ => Decimal.Text(|c.item.data|)
  }

  /** Words with a blank behind each, then `rest`. */
  function Spaced(words: seq<string>, rest: string): string {
    if words == [] then rest else words[0] + [' '] + Spaced(words[1..], rest)
  }

  function CommandLine(c: Command): string
    requires IsCommand(c)
  {
    Spaced(Before(c), Last(c))
  }

  /** What follows the command line. */
  function Value(c: Command): string {
    match c
    case SetItem(item) => item.data + CRLF
    case BadSet(item, end) => item.data + end
    case _ => ""
  }

  function Text(c: Command): string
    requires IsCommand(c)
  {
    CommandLine(c) + CRLF + Value(c)
  }

  /** What a command does to the outside. */
  function Effects(c: Command): seq<Event> {
    match c
    case SetItem(item) => [Stored(item), Reply(STORED)]
    case BadSet(_, _) => []
    case GetKey(key) => [Lookup(key)]
    case Leave => [Shutdown]
  }

  lemma {:induction false} SpacedWords(words: seq<string>, rest: string)
    requires forall w :: w in words ==> IsWord(w)
    ensures Words(Spaced(words, rest)) == words + Words(rest)
    decreases |words|
  {
    if words == [] {
      assert [] + Words(rest) == Words(rest);
    } else {
      WordSplitOff(words[0], Spaced(words[1..], rest));
      SpacedWords(words[1..], rest);
      assert words + Words(rest) == [words[0]] + (words[1..] + Words(rest));
    }
  }

  lemma {:induction false} SpacedAppend(words: seq<string>, rest: string, more: string)
    ensures Spaced(words, rest) + more == Spaced(words, rest + more)
    decreases |words|
  {
    if words != [] {
      SpacedAppend(words[1..], rest, more);
      assert Spaced(words, rest) + more == words[0] + [' '] + (Spaced(words[1..], rest) + more);
    }
  }

  lemma {:induction false} SpacedHasNoReturn(words: seq<string>, rest: string)
    requires '\r' !in rest && forall w :: w in words ==> '\r' !in w
    ensures '\r' !in Spaced(words, rest)
    decreases |words|
  {
    if words != [] {
      SpacedHasNoReturn(words[1..], rest);
    }
  }

  lemma NumberWord(n: nat)
    ensures IsKey(Decimal.Text(n))
  {
    ReadNumberOfText(n);
    Decimal.DigitsOnly(Decimal.Text(n), '\r');
  }

  lemma CommandIsWords(c: Command)
    requires IsCommand(c)
    ensures IsKey(Last(c)) && forall w :: w in Before(c) ==> IsKey(w)
  {
    if IsSet(c) {
      NumberWord(c.item.flag);
      NumberWord(c.item.exptime);
      NumberWord(|c.item.data|);
    }
  }

  lemma CommandIsOneLine(c: Command)
    requires IsCommand(c)
    ensures '\r' !in CommandLine(c) && NoCrlf(CommandLine(c))
  {
    CommandIsWords(c);
    SpacedHasNoReturn(Before(c), Last(c));
    NoReturnNoCrlf(CommandLine(c), |CommandLine(c)|);
  }

  lemma NoReturnNoCrlf(s: string, n: nat)
    requires n <= |s| && '\r' !in s[..n]
    ensures forall i :: 0 <= i < n ==> !CrlfAt(s, i)
  {
    forall i | 0 <= i < n
      ensures !CrlfAt(s, i)
    {
      assert s[..n][i] != '\r';
    }
  }

  // ----- its command line, taken up alone -----

  /** The session behind the command line. */
  function Begun(s: Session, c: Command): Session {
    match c
    case GetKey(key) => s.(command := Get).Log(Lookup(key))
    case Leave => s.(command := Quit).Log(Shutdown)
    case _ =>
      s.(command := Set, key := c.item.key, flag := c.item.flag, exptime := c.item.exptime, valueLen := |c.item.data|)
  }

  lemma CommandBegun(s: Session, c: Command)
    requires IsCommand(c)
    ensures DoRequestCommand(s, CommandLine(c)) == (Begun(s, c), !c.Leave?)
  {
    hide ReadArguments, Spaced;
    CommandIsWords(c);
    SpacedWords(Before(c), Last(c));
    LastWord(Last(c));
    match c
    case GetKey(key) =>
      assert Words(CommandLine(c))[1..] == [key];
    case Leave =>
      assert Words(CommandLine(c)) == [Last(c)];
    case _ =>
      var item := c.item;
      SetArguments(s.(command := Set, key := item.key), item);
      assert Words(CommandLine(c))[1..] == [item.key] + Numbers(item);
      assert ([item.key] + Numbers(item))[1..] == Numbers(item);
  }

  function Numbers(item: Item): seq<string>
    requires item.flag >= 0 && item.exptime >= 0
  {
    [Decimal.Text(item.flag), Decimal.Text(item.exptime), Decimal.Text(|item.data|)]
  }

  lemma SetArguments(s: Session, item: Item)
    requires IsItem(item) && s.key == item.key
    ensures ReadArguments(s, Numbers(item)) ==
            (s.(flag := item.flag, exptime := item.exptime, valueLen := |item.data|), true)
  {
    hide ReadNumber;
    ReadNumberOfText(item.flag);
    ReadNumberOfText(item.exptime);
    ReadNumberOfText(|item.data|);
  }

  /** The session behind the command line, its line end consumed. */
  function Awaiting(s: Session, c: Command, behind: string): Session
    requires IsCommand(c)
  {
    Begun(s, c).(unread := behind, lines := s.lines + [CommandLine(c)],
                 state := if IsSet(c) then ReadValue else ReadCommandLine)
  }

  lemma LineTaken(s: Session, c: Command, behind: string)
    requires s.Valid() && s.state == ReadCommandLine && s.searchPos.None? && IsCommand(c)
    requires s.unread == CommandLine(c) + CRLF + behind
    ensures Run(s) == Run(Awaiting(s, c, behind))
  {
    hide DoRequestCommand, CommandLine;
    var line := CommandLine(c);
    CommandIsOneLine(c);
    LineAtOnce(s, line, behind);
    CommandBegun(s.TakeUp(line), c);
  }

  /** The session behind the whole command. */
  function Ended(s: Session, c: Command, rest: string): Session
    requires IsCommand(c)
  {
    Begun(s, c).(unread := rest, lines := s.lines + [CommandLine(c)], events := s.events + Effects(c))
  }

  /** One command at the head of the bytes, whatever its data and whatever follows, does
      what it says. */
  lemma CommandTaken(s: Session, c: Command, rest: string)
    requires s.Valid() && s.state == ReadCommandLine && s.searchPos.None? && IsCommand(c)
    requires s.unread == Text(c) + rest
    ensures Run(s) == Run(Ended(s, c, rest))
  {
    hide Run, CommandLine, Effects;
    var behind := Value(c) + rest;
    assert s.unread == CommandLine(c) + CRLF + behind;
    LineTaken(s, c, behind);
    if IsSet(c) {
      ValueTaken(Awaiting(s, c, behind), c, rest);
    } else {
      EmptyIsUnit(rest);
      NoValueTaken(s, c, rest);
    }
  }

  lemma NoValueTaken(s: Session, c: Command, rest: string)
    requires IsCommand(c) && !IsSet(c)
    ensures Awaiting(s, c, rest) == Ended(s, c, rest).(state := ReadCommandLine)
  {
    hide CommandLine;
  }

  lemma ValueTaken(t: Session, c: Command, rest: string)
    requires t.Valid() && t.state == ReadValue && IsCommand(c) && IsSet(c) && t.valueLen == |c.item.data|
    requires c.item == Item(t.key, t.flag, t.exptime, c.item.data) && t.unread == Value(c) + rest
    ensures Run(t) == Run(t.(state := ReadCommandLine, unread := rest, events := t.events + Effects(c)))
  {
    hide Run, IsItem;
    var end := if c.SetItem? then CRLF else c.end;
    ThreeParts(c.item.data, end, rest);
    assert Value(c) == c.item.data + end;
    ValueExact(t);
  }

  lemma ThreeParts(data: string, end: string, rest: string)
    requires |end| == 2
    ensures var s, n := data + end + rest, |data|; s[..n] == data && s[n..n + 2] == end && s[n + 2..] == rest
  {
  }

  /** A value is taken as soon as it is there with the two bytes behind it, and not before. If
      these are a line end, it is stored and answered, and otherwise nothing is done; in either
      case the next command line is read right behind them. */
  lemma ValueExact(s: Session)
    requires s.Valid() && s.state == ReadValue
    ensures var n := s.valueLen;
            if |s.unread| < n + 2 then Run(s) == s
            else
              var item := Item(s.key, s.flag, s.exptime, s.unread[..n]);
              var done := if s.unread[n..n + 2] == CRLF then [Stored(item), Reply(STORED)] else [];
              Run(s) == Run(s.(state := ReadCommandLine, unread := s.unread[n + 2..], events := s.events + done))
  {
    hide DoRequestCommand;
    var n := s.valueLen;
    if |s.unread| >= n + 2 {
      RunAgain(s);
      var item := Item(s.key, s.flag, s.exptime, s.unread[..n]);
      assert s.events + [Stored(item)] + [Reply(STORED)] == s.events + [Stored(item), Reply(STORED)];
      assert s.events + [] == s.events;
    }
  }

  // ----- a part of it -----

  /** Nothing but a command line up to its carriage return is at hand. */
  predicate BeforeFeed(s: Session, c: Command)
    requires IsCommand(c)
  {
    && s.state == ReadCommandLine && s.searchPos == Some(|CommandLine(c)| + 1)
    && s.unread == CommandLine(c) + ['\r']
  }

  predicate EndsInReturn(s: Session) {
    s.state == ReadCommandLine && s.unread != "" && s.unread[|s.unread| - 1] == '\r'
  }

  lemma PartTaken(s: Session, c: Command, n: nat)
    requires s.Valid() && s.state == ReadCommandLine && s.searchPos.None? && IsCommand(c)
    requires n < |Text(c)| && s.unread == Text(c)[..n]
    ensures EndsInReturn(Run(s)) <==> n == |CommandLine(c)| + 1
    ensures n == |CommandLine(c)| + 1 ==> BeforeFeed(Run(s), c) && Run(s).events == s.events
  {
    hide CommandLine, Run;
    var line := CommandLine(c);
    CommandIsOneLine(c);
    if n <= |line| + 1 {
      LinePart(s, line, Value(c), n);
    } else {
      var behind := Value(c)[..n - |line| - 2];
      assert s.unread == line + CRLF + behind;
      LineTaken(s, c, behind);
      ValueExact(Awaiting(s, c, behind));
    }
  }

  lemma LinePart(s: Session, line: string, behind: string, n: nat)
    requires s.Valid() && s.state == ReadCommandLine && s.searchPos.None? && '\r' !in line
    requires n <= |line| + 1 && s.unread == (line + CRLF + behind)[..n]
    ensures Run(s) == s.(searchPos := Some(n))
    ensures n > 0 ==> (s.unread[n - 1] == '\r' <==> n == |line| + 1)
    ensures n == |line| + 1 ==> s.unread == line + ['\r']
  {
    assert n <= |line| ==> s.unread == line[..n];
    NoReturnNoCrlf(s.unread, if n <= |line| then n else |line|);
    assert NoCrlf(s.unread);
    assert Step(s) == (s.(searchPos := Some(n)), false);
  }

  // ----- whole streams -----

  predicate AreCommands(cs: seq<Command>) {
    forall i :: 0 <= i < |cs| ==> IsCommand(cs[i])
  }

  function AllText(cs: seq<Command>): string
    requires AreCommands(cs)
  {
    if cs == [] then "" else Text(cs[0]) + AllText(cs[1..])
  }

  function AllEffects(cs: seq<Command>): seq<Event> {
    if cs == [] then [] else Effects(cs[0]) + AllEffects(cs[1..])
  }

  /** Offset `n` of the stream is between the carriage return and the line feed of a command line. */
  predicate InLineEnd(cs: seq<Command>, n: int)
    requires AreCommands(cs)
    decreases |cs|
  {
    cs != [] && (n == |CommandLine(cs[0])| + 1 || InLineEnd(cs[1..], n - |Text(cs[0])|))
  }

  /** No read, the first of which starts at offset `at`, starts there. */
  predicate CutsClean(cs: seq<Command>, at: nat, pieces: seq<string>)
    requires AreCommands(cs)
    decreases |pieces|
  {
    pieces == [] || (!InLineEnd(cs, at) && CutsClean(cs, at + |pieces[0]|, pieces[1..]))
  }

  lemma {:induction false} NotBeforeStart(cs: seq<Command>, n: int)
    requires AreCommands(cs) && n <= 0
    ensures !InLineEnd(cs, n)
    decreases |cs|
  {
    if cs != [] {
      NotBeforeStart(cs[1..], n - |Text(cs[0])|);
    }
  }

  function AllLines(cs: seq<Command>): seq<string>
    requires AreCommands(cs)
  {
    if cs == [] then [] else [CommandLine(cs[0])] + AllLines(cs[1..])
  }

  lemma Regroup<T>(a: seq<T>, b: seq<T>, c: seq<T>)
    ensures a + b + c == a + (b + c)
  {
  }

  lemma {:induction false} AllTaken(s: Session, cs: seq<Command>)
    requires s.Valid() && s.state == ReadCommandLine && s.searchPos.None?
    requires AreCommands(cs) && s.unread == AllText(cs)
    ensures Run(s).events == s.events + AllEffects(cs) && Run(s).unread == "" && Run(s).state == ReadCommandLine
    ensures Run(s).lines == s.lines + AllLines(cs)
    decreases |cs|
  {
    hide CommandLine, Run, Effects, Text, Ended;
    if cs == [] {
      NothingAtHand(s);
      assert s.events + [] == s.events && s.lines + [] == s.lines;
    } else {
      var rest := AllText(cs[1..]);
      CommandTaken(s, cs[0], rest);
      EndedKeeps(s, cs[0], rest);
      AllTaken(Ended(s, cs[0], rest), cs[1..]);
      Regroup(s.events, Effects(cs[0]), AllEffects(cs[1..]));
      Regroup(s.lines, [CommandLine(cs[0])], AllLines(cs[1..]));
    }
  }

  /** Behind a command the session is where it was, with more in its logs. */
  lemma EndedKeeps(s: Session, c: Command, rest: string)
    requires IsCommand(c)
    ensures var t := Ended(s, c, rest);
            && t.state == s.state && t.searchPos == s.searchPos && t.unread == rest
            && t.events == s.events + Effects(c) && t.lines == s.lines + [CommandLine(c)]
  {
    hide CommandLine, Effects;
  }

  /** Fed a part of the stream that ends between CR and LF of a command line, the session has
      done all that comes before that command, and it is that command's line it has at hand. */
  ghost predicate Stuck(s: Session, c: Command, all: seq<Event>, later: seq<Event>) {
    IsCommand(c) && BeforeFeed(s, c) && all == s.events + Effects(c) + later
  }

  lemma {:induction false} PrefixTaken(s: Session, cs: seq<Command>, n: nat)
      returns (c: Command, later: seq<Event>)
    requires s.Valid() && s.state == ReadCommandLine && s.searchPos.None?
    requires AreCommands(cs) && n <= |AllText(cs)| && s.unread == AllText(cs)[..n]
    ensures EndsInReturn(Run(s)) <==> InLineEnd(cs, n)
    ensures InLineEnd(cs, n) ==> c in cs && Stuck(Run(s), c, s.events + AllEffects(cs), later)
    decreases |cs|
  {
    hide Run, CommandLine, Effects, Value, Ended, BeforeFeed;
    c, later := GetKey(""), [];
    if cs == [] {
      NothingAtHand(s);
    } else if n < |Text(cs[0])| {
      c, later := cs[0], AllEffects(cs[1..]);
      assert s.unread == Text(c)[..n];
      PartTaken(s, c, n);
      NotBeforeStart(cs[1..], n - |Text(c)|);
      Regroup(s.events, Effects(c), later);
    } else {
      var m, rest := n - |Text(cs[0])|, AllText(cs[1..]);
      assert s.unread == Text(cs[0]) + rest[..m];
      CommandTaken(s, cs[0], rest[..m]);
      EndedKeeps(s, cs[0], rest[..m]);
      c, later := PrefixTaken(Ended(s, cs[0], rest[..m]), cs[1..], m);
      Regroup(s.events, Effects(cs[0]), AllEffects(cs[1..]));
    }
  }

  // ----- how many bytes it takes to do something -----

  function NumberRoom(v: int): nat {
    if v < 0 then 0 else |Decimal.Text(v)|
  }

  /** The bytes of the shortest command line with these arguments. */
  function LineRoom(key: string, flag: int, exptime: int, len: int): nat {
    4 + |key| + 1 + NumberRoom(flag) + 1 + NumberRoom(exptime) + 1 + NumberRoom(len) + 2
  }

  /** The bytes of the shortest command that does this. */
  function Weight(e: Event): nat {
    match e
    case Stored(item) => LineRoom(item.key, item.flag, item.exptime, |item.data|) + |item.data| + 2
    case Lookup(key) => 4 + |key| + 2
    case Shutdown => 6
    case Reply(_) => 0
  }

  function Weigh(es: seq<Event>): nat {
    if es == [] then 0 else Weigh(es[..|es| - 1]) + Weight(es[|es| - 1])
  }

  /** The bytes that a session accounts for: done, at hand, and taken up for the value awaited. */
  function Load(s: Session): nat {
    Weigh(s.events) + |s.unread| +
    if s.state == ReadValue then LineRoom(s.key, s.flag, s.exptime, s.valueLen) else 0
  }

  lemma WeighLast(es: seq<Event>, e: Event)
    ensures Weigh(es + [e]) == Weigh(es) + Weight(e)
  {
    assert (es + [e])[..|es|] == es;
  }

  lemma {:induction false} WeighAppend(a: seq<Event>, b: seq<Event>)
    ensures Weigh(a + b) == Weigh(a) + Weigh(b)
    decreases |b|
  {
    if b == [] {
      assert a + b == a;
    } else {
      var n := |b| - 1;
      assert (a + b)[..|a| + n] == a + b[..n];
      WeighAppend(a, b[..n]);
    }
  }

  lemma GetLoad(s: Session, args: seq<string>)
    ensures var t := DoGet(s, args).0; Weigh(t.events) <= Weigh(s.events) + Room(args) + 5
  {
    if args == [] {
      WeighLast(s.events, Reply(CLIENT_ERROR));
    } else {
      WeighLast(s.events, Lookup(args[0]));
    }
  }

  lemma SetLoad(s: Session, args: seq<string>)
    ensures var (t, good) := DoUpdate(s, args);
            if good then t.events == s.events && LineRoom(t.key, t.flag, t.exptime, t.valueLen) <= Room(args) + 5
            else Weigh(t.events) == Weigh(s.events)
  {
    hide DoUpdate, ReadNumber;
    UpdateExact(s, args);
    WeighLast(s.events, Reply(CLIENT_ERROR));
    WeighLast(s.events, Reply(SERVER_ERROR));
    if WellFormedUpdate(args) {
      ReadNumberIsShort(args[1]);
      ReadNumberIsShort(args[2]);
      ReadNumberIsShort(args[3]);
      RoomOfFour(args);
    }
    assert s.events + [] == s.events;
  }

  lemma RoomOfFour(args: seq<string>)
    requires |args| >= 4
    ensures Room(args) == |args[0]| + |args[1]| + |args[2]| + |args[3]| + 4 + Room(args[4..])
  {
    assert Room(args) == |args[0]| + 1 + Room(args[1..]);
    assert args[1..][1..] == args[2..] && Room(args[1..]) == |args[1]| + 1 + Room(args[2..]);
    assert args[2..][1..] == args[3..] && Room(args[2..]) == |args[2]| + 1 + Room(args[3..]);
    assert args[3..][1..] == args[4..] && Room(args[3..]) == |args[3]| + 1 + Room(args[4..]);
  }

  /** A command line accounts for no more than its bytes, line end included. */
  lemma CommandLoad(s: Session, request: string)
    ensures var (t, good) := DoRequestCommand(s, request);
            Weigh(t.events) + (if good && t.command == Set then LineRoom(t.key, t.flag, t.exptime, t.valueLen) else 0)
            <= Weigh(s.events) + |request| + 2
  {
    hide Words, LineRoom, Weight, DoGet, DoUpdate;
    var words := Words(request);
    WordsFit(request);
    if words != [] {
      if words[0] == "get" {
        GetLoad(s.(command := Get), words[1..]);
        GetKeepsCommand(s.(command := Get), words[1..]);
      } else if words[0] == "set" {
        SetLoad(s.(command := Set), words[1..]);
      } else if words[0] == "quit" {
        WeighLast(s.events, Shutdown);
        assert Weight(Shutdown) == 6 by {
          ShutdownWeight();
        }
      }
    }
  }

  lemma ShutdownWeight()
    ensures Weight(Shutdown) == 6
  {
  }

  lemma GetKeepsCommand(s: Session, args: seq<string>)
    ensures DoGet(s, args).0.command == s.command
  {
  }

  lemma StepLoad(s: Session)
    requires s.Valid()
    ensures Load(Step(s).0) <= Load(s)
  {
    hide Weigh, DoRequestCommand, LineRoom;
    if Step(s).1 {
      if s.state == ReadCommandLine {
        var from := if s.searchPos.Some? then s.searchPos.value else 0;
        var i := FindCrlfFrom(s.unread, from).value;
        CommandLoad(s.TakeUp(s.unread[..i]), s.unread[..i]);
        CommandKeeps(s.TakeUp(s.unread[..i]), s.unread[..i]);
      } else {
        ValueLoad(s);
      }
    }
  }

  lemma ValueLoad(s: Session)
    requires s.Valid() && s.state == ReadValue && |s.unread| >= s.valueLen + 2
    ensures Load(TakeValue(s)) <= Load(s)
  {
    hide Weigh, LineRoom;
    var item := Item(s.key, s.flag, s.exptime, s.unread[..s.valueLen]);
    WeighLast(s.events, Stored(item));
    WeighLast(s.events + [Stored(item)], Reply(STORED));
  }

  lemma {:induction false} RunLoad(s: Session)
    requires s.Valid()
    ensures Load(Run(s)) <= Load(s)
    decreases |s.unread|
  {
    hide Load, Step;
    StepLoad(s);
    if Step(s).1 {
      RunLoad(Step(s).0);
    }
  }

  lemma {:induction false} SpacedLength(words: seq<string>, rest: string)
    ensures |Spaced(words, rest)| == Room(words) + |rest|
    decreases |words|
  {
    if words != [] {
      SpacedLength(words[1..], rest);
    }
  }

  lemma EffectsWeigh(c: Command)
    requires IsCommand(c)
    ensures Weigh(Effects(c)) == if c.BadSet? then 0 else |Text(c)|
  {
    hide Spaced, Decimal.Text, Weigh, IsKey;
    SpacedLength(Before(c), Last(c));
    NothingWeighs();
    match c
    case SetItem(item) =>
      SetWeighs(item);
    case BadSet(_, _) =>
    case GetKey(key) =>
      WeighLast([], Lookup(key));
      assert [] + [Lookup(key)] == Effects(c) && Before(c)[1..] == [];
    case Leave =>
      WeighLast([], Shutdown);
      assert [] + [Shutdown] == Effects(c);
  }

  lemma SetWeighs(item: Item)
    requires IsCommand(SetItem(item))
    ensures Weigh([Stored(item), Reply(STORED)]) == |Text(SetItem(item))|
  {
    hide Spaced, Decimal.Text, Weigh, IsKey, Room;
    var c := SetItem(item);
    SpacedLength(Before(c), Last(c));
    NothingWeighs();
    RoomOfFour(Before(c));
    NoRoom();
    WeighLast([], Stored(item));
    WeighLast([Stored(item)], Reply(STORED));
    assert [Stored(item)] + [Reply(STORED)] == [Stored(item), Reply(STORED)] && [] + [Stored(item)] == [Stored(item)];
    assert Before(c)[4..] == [];
  }

  lemma NoRoom()
    ensures Room([]) == 0
  {
  }

  lemma {:induction false} AllEffectsWeigh(cs: seq<Command>)
    requires AreCommands(cs) && forall i :: 0 <= i < |cs| ==> !cs[i].BadSet?
    ensures Weigh(AllEffects(cs)) == |AllText(cs)|
    decreases |cs|
  {
    hide Weigh, Effects, Text;
    if cs == [] {
      NothingWeighs();
    } else {
      EffectsWeigh(cs[0]);
      AllEffectsWeigh(cs[1..]);
      WeighAppend(Effects(cs[0]), AllEffects(cs[1..]));
    }
  }

  lemma NothingWeighs()
    ensures Weigh([]) == 0
  {
  }

  // ----- what a cut within a line end does -----

  /** The command line is there with its line end, which is not searched any more. */
  predicate AtLine(s: Session, c: Command)
    requires IsCommand(c)
  {
    && s.state == ReadCommandLine && s.searchPos.Some? && s.searchPos.value > |CommandLine(c)|
    && CommandLine(c) + CRLF <= s.unread
  }

  /** Not what `c` does first: an error for a set, for a get the lookup of another key. */
  predicate Wrong(c: Command, e: Event) {
    if c.GetKey? then e != Lookup(c.key) else e == Reply(CLIENT_ERROR)
  }

  /** Nothing comes behind `done`, or something wrong; or, where `c` should have closed the
      connection, fewer than `limit` bytes are accounted for. */
  predicate Spoiled(s: Session, done: seq<Event>, c: Command, limit: nat)
    requires IsCommand(c)
  {
    || (s.events == done && AtLine(s, c))
    || (c.Leave? && Load(s) < limit)
    || (!c.Leave? && done < s.events && Wrong(c, s.events[|done|]))
  }

  lemma AppendLoad(s: Session, piece: string)
    ensures Load(s.Append(piece)) == Load(s) + |piece|
  {
  }

  lemma SpoiledStays(s: Session, done: seq<Event>, c: Command, limit: nat, piece: string)
    requires s.Valid() && IsCommand(c) && Spoiled(s, done, c, limit) && Load(s) <= limit
    ensures Spoiled(Run(s.Append(piece)), done, c, limit + |piece|)
    ensures Load(Run(s.Append(piece))) <= limit + |piece|
  {
    hide Load, Run, CommandLine, Effects;
    var x := s.Append(piece);
    AppendLoad(s, piece);
    RunLoad(x);
    LogsGrow(x);
    if s.events == done && AtLine(s, c) {
      assert CommandLine(c) + CRLF <= x.unread;
      SpoiledAgain(x, c, limit + |piece|);
    }
  }

  /** The command line is taken up together with what follows, or not at all. */
  lemma SpoiledAgain(x: Session, c: Command, limit: nat)
    requires x.Valid() && IsCommand(c) && AtLine(x, c) && Load(x) <= limit
    ensures Spoiled(Run(x), x.events, c, limit)
  {
    hide DoRequestCommand, CommandLine, Load;
    match FindCrlfFrom(x.unread, x.searchPos.value)
    case None =>
    case Some(i) => MergedTaken(x, c, i, limit);
  }

  lemma MergedTaken(x: Session, c: Command, i: nat, limit: nat)
    requires x.Valid() && IsCommand(c) && AtLine(x, c) && Load(x) <= limit
    requires FindCrlfFrom(x.unread, x.searchPos.value) == Some(i)
    ensures Spoiled(Run(x), x.events, c, limit)
  {
    hide Run, CommandLine, Effects, DoRequestCommand, Load;
    var line := CommandLine(c);
    assert x.unread[|line| + 1] == (line + CRLF)[|line| + 1] == '\n';
    var more := x.unread[|line| + 2..i];
    assert x.unread[..i] == line + (CRLF + more);
    var y := x.TakeUp(x.unread[..i]);
    MergedCommand(y, c, more);
    var t := Step(x).0;
    RunAgain(x);
    if c.Leave? {
      assert t == y.(unread := x.unread[i + 2..], searchPos := None);
      LoadDrops(x, t);
      RunLoad(t);
    } else {
      assert t.events == MergedEffects(y, c, more);
      LogsGrow(t);
      assert Run(t).events[|x.events|] == t.events[|x.events|];
    }
  }

  lemma LoadDrops(s: Session, t: Session)
    requires t.events == s.events && t.state == s.state == ReadCommandLine && |t.unread| < |s.unread|
    ensures Load(t) < Load(s)
  {
  }

  lemma RunAgain(x: Session)
    requires x.Valid() && Step(x).1
    ensures Run(x) == Run(Step(x).0)
  {
  }

  function MergedEffects(s: Session, c: Command, more: string): seq<Event>
    requires IsCommand(c)
  {
    DoRequestCommand(s, CommandLine(c) + (CRLF + more)).0.events
  }

  /** A command line with a line end inside is another command: a set has no readable length
      and is answered with an error, a get looks up another key, and a quit is unknown. */
  lemma MergedCommand(s: Session, c: Command, more: string)
    requires IsCommand(c)
    ensures c.Leave? ==> DoRequestCommand(s, CommandLine(c) + (CRLF + more)) == (s, false)
    ensures !c.Leave? ==>
              |MergedEffects(s, c, more)| > |s.events| && s.events <= MergedEffects(s, c, more) &&
              Wrong(c, MergedEffects(s, c, more)[|s.events|])
  {
    hide Spaced, ReadNumber;
    var last := Last(c) + (CRLF + more);
    var words := Words(last);
    CommandIsWords(c);
    SpacedAppend(Before(c), Last(c), CRLF + more);
    SpacedWords(Before(c), last);
    MergedWord(Last(c), more);
    var all := Words(CommandLine(c) + (CRLF + more));
    match c
    case GetKey(key) =>
      assert all[1..][0] == words[0];
    case Leave =>
      assert all == words && |words[0]| > 4;
    case _ =>
      MergedNumber(|c.item.data|, words[0]);
      assert all[1..][0] == c.item.key && all[1..][1..][2] == words[0];
      UnreadableLength(s.(command := Set), all[1..]);
  }

  /** The word that the line end is in. */
  lemma MergedWord(last: string, more: string)
    requires IsKey(last)
    ensures var words := Words(last + (CRLF + more));
            words != [] && |words[0]| > |last| && words[0][..|last|] == last && words[0][|last|] == '\r'
  {
    var s := last + (CRLF + more);
    assert s[0] == last[0] && last[0] in last;
    var i := Find(s, ' ');
    assert forall k :: 0 <= k <= |last| ==> s[k] != ' ' by {
      assert forall k :: 0 <= k < |last| ==> s[k] == last[k] && last[k] in last;
    }
    assert i > |last|;
  }

  lemma MergedNumber(n: nat, word: string)
    requires var t := Decimal.Text(n); |word| > |t| && word[..|t|] == t && word[|t|] == '\r'
    ensures ReadNumber(word).None?
  {
    var t := Decimal.Text(n);
    DigitsAreWord(t);
    assert word[0] == t[0];
    assert Decimal.IsDigit(t[0]);
    assert !Decimal.IsDigit(word[|t|]);
  }

  lemma UnreadableLength(s: Session, args: seq<string>)
    requires |args| >= 4 && ReadNumber(args[3]).None?
    ensures DoUpdate(s, args).0.events == s.events + [Reply(CLIENT_ERROR)]
  {
    UpdateExact(s, args);
  }

  lemma {:induction false} SpoiledForEver(s: Session, done: seq<Event>, c: Command, limit: nat, pieces: seq<string>,
                                          end: nat)
    requires s.Valid() && IsCommand(c) && Spoiled(s, done, c, limit) && Load(s) <= limit
    requires end == limit + |Concat(pieces)|
    ensures Spoiled(Feed(s, pieces), done, c, end)
    decreases |pieces|
  {
    hide Spoiled, Load, Run;
    if pieces != [] {
      SpoiledStays(s, done, c, limit, pieces[0]);
      ConcatFront(pieces);
      SpoiledForEver(Run(s.Append(pieces[0])), done, c, limit + |pieces[0]|, pieces[1..], end);
    }
  }

  // ----- both together -----

  /** Everything is done, in order, and nothing is left over. */
  predicate AllDone(r: Session, s: Session, cs: seq<Command>) {
    r.events == s.events + AllEffects(cs) && r.unread == "" && r.state == ReadCommandLine
  }

  /** Either every set has its line end or nobody quits. */
  predicate Telling(cs: seq<Command>) {
    Leave !in cs || forall i :: 0 <= i < |cs| ==> !cs[i].BadSet?
  }

  /** A cut within a command line's line end is a bad split, and there is no other. */
  lemma {:induction false} CutsAreSplits(s: Session, got: string, cs: seq<Command>, pieces: seq<string>)
    requires AtStart(s) && AreCommands(cs) && got + Concat(pieces) == AllText(cs)
    requires forall i :: 0 <= i < |pieces| ==> pieces[i] != ""
    ensures CleanSplits(Run(s.Append(got)), pieces) == CutsClean(cs, |got|, pieces)
    decreases |pieces|
  {
    hide Run, InLineEnd, AllText, AllEffects;
    if pieces != [] {
      var t := Run(s.Append(got));
      var c, later := ReadSoFar(s, t, got, cs, pieces);
      if InLineEnd(cs, |got|) {
        LineFeedNext(cs, |got|);
        NextByte(got, pieces, AllText(cs));
      } else {
        NextPiece(s, t, got, pieces[0]);
        CutsAreSplits(s, got + pieces[0], cs, pieces[1..]);
      }
    }
  }

  lemma ReadSoFar(s: Session, t: Session, got: string, cs: seq<Command>, pieces: seq<string>)
      returns (c: Command, later: seq<Event>)
    requires AtStart(s) && t == Run(s.Append(got)) && AreCommands(cs) && got + Concat(pieces) == AllText(cs)
    ensures EndsInReturn(t) <==> InLineEnd(cs, |got|)
    ensures InLineEnd(cs, |got|) ==> c in cs && Stuck(t, c, s.events + AllEffects(cs), later)
    ensures pieces != [] ==> got + pieces[0] + Concat(pieces[1..]) == AllText(cs)
  {
    hide Run, InLineEnd, AllText, AllEffects;
    assert AllText(cs)[..|got|] == got;
    c, later := PrefixTaken(s.Append(got), cs, |got|);
    if pieces != [] {
      ConcatFront(pieces);
    }
  }

  /** From a session that has read `got`, cleanly cut, on. */
  lemma {:induction false} BadCutTells(s: Session, got: string, cs: seq<Command>, pieces: seq<string>)
    requires AtStart(s) && AreCommands(cs) && got + Concat(pieces) == AllText(cs)
    requires forall i :: 0 <= i < |pieces| ==> pieces[i] != ""
    requires Telling(cs) && !CutsClean(cs, |got|, pieces)
    ensures !AllDone(Feed(Run(s.Append(got)), pieces), s, cs)
    decreases |pieces|
  {
    hide Run, InLineEnd, AllText, AllEffects;
    var t := Run(s.Append(got));
    var c, later := ReadSoFar(s, t, got, cs, pieces);
    if InLineEnd(cs, |got|) {
      CutSpoils(s, t, cs, c, later, got, pieces);
    } else {
      NextPiece(s, t, got, pieces[0]);
      BadCutTells(s, got + pieces[0], cs, pieces[1..]);
    }
  }

  lemma NextPiece(s: Session, t: Session, got: string, piece: string)
    requires AtStart(s) && t == Run(s.Append(got)) && !EndsInReturn(t)
    ensures Run(t.Append(piece)) == Run(s.Append(got + piece))
  {
    hide Run;
    RunSettles(s.Append(got));
    SearchPosHarmless(t, piece);
    RunResumes(s.Append(got), piece);
    assert s.unread + got + piece == s.unread + (got + piece);
  }

  lemma CutSpoils(s: Session, t: Session, cs: seq<Command>, c: Command, later: seq<Event>, got: string,
                  pieces: seq<string>)
    requires AtStart(s) && t == Run(s.Append(got)) && Stuck(t, c, s.events + AllEffects(cs), later)
    requires pieces != [] && pieces[0] != "" && AreCommands(cs) && c in cs && Telling(cs)
    requires got + Concat(pieces) == AllText(cs) && InLineEnd(cs, |got|)
    ensures !AllDone(Feed(t, pieces), s, cs)
  {
    hide Run, Feed, AllText, InLineEnd, AllEffects, Load, Weigh, Spoiled, AllDone, Stuck;
    hide Telling, AtStart, BeforeFeed, Effects;
    StuckIs(t, c, s.events + AllEffects(cs), later);
    var end := CutStaysSpoilt(s, t, cs, c, got, pieces);
    ReadsLog(s, got);
    SpoiledNotDone(Feed(t, pieces), s, cs, t, c, later, end);
  }

  lemma ReadsLog(s: Session, got: string)
    requires AtStart(s)
    ensures s.events <= Run(s.Append(got)).events
  {
    LogsGrow(s.Append(got));
  }

  lemma CutStaysSpoilt(s: Session, t: Session, cs: seq<Command>, c: Command, got: string, pieces: seq<string>)
      returns (end: nat)
    requires AtStart(s) && t == Run(s.Append(got)) && IsCommand(c) && BeforeFeed(t, c)
    requires pieces != [] && pieces[0] != "" && AreCommands(cs)
    requires got + Concat(pieces) == AllText(cs) && InLineEnd(cs, |got|)
    ensures end == Weigh(s.events) + |AllText(cs)| && Spoiled(Feed(t, pieces), t.events, c, end)
  {
    hide Run, AllText, InLineEnd, Load, Weigh, Spoiled, BeforeFeed;
    LineFeedNext(cs, |got|);
    NextByte(got, pieces, AllText(cs));
    var limit := CutNext(s, t, c, got, pieces[0]);
    end := Weigh(s.events) + |AllText(cs)|;
    SpoiledForEver(Run(t.Append(pieces[0])), t.events, c, limit, pieces[1..], end);
  }

  lemma NextByte(got: string, pieces: seq<string>, text: string)
    requires pieces != [] && pieces[0] != "" && got + Concat(pieces) == text
    ensures |got| < |text| && pieces[0][0] == text[|got|]
    ensures |got| + |pieces[0]| + |Concat(pieces[1..])| == |text|
  {
    ConcatFront(pieces);
    assert text[|got|] == Concat(pieces)[0];
  }

  lemma CutNext(s: Session, t: Session, c: Command, got: string, piece: string) returns (limit: nat)
    requires AtStart(s) && t == Run(s.Append(got)) && IsCommand(c) && BeforeFeed(t, c)
    requires piece != "" && piece[0] == '\n'
    ensures limit == Weigh(s.events) + |got| + |piece|
    ensures Spoiled(Run(t.Append(piece)), t.events, c, limit) && Load(Run(t.Append(piece))) <= limit
  {
    hide Run, CommandLine, Load, Weigh, AtLine, Spoiled, BeforeFeed;
    limit := Weigh(s.events) + |got| + |piece|;
    LineComplete(t, c, piece);
    StartLoad(s, got);
    RunLoad(s.Append(got));
    AppendLoad(t, piece);
    SpoiledAgain(t.Append(piece), c, limit);
    RunLoad(t.Append(piece));
  }

  lemma LineComplete(t: Session, c: Command, piece: string)
    requires IsCommand(c) && BeforeFeed(t, c) && piece != "" && piece[0] == '\n'
    ensures AtLine(t.Append(piece), c)
  {
    hide CommandLine;
    assert (t.unread + piece)[..|CommandLine(c)| + 2] == CommandLine(c) + CRLF;
  }

  lemma StartLoad(s: Session, got: string)
    requires AtStart(s)
    ensures Load(s.Append(got)) == Weigh(s.events) + |got|
  {
  }

  lemma StuckIs(t: Session, c: Command, all: seq<Event>, later: seq<Event>)
    requires Stuck(t, c, all, later)
    ensures IsCommand(c) && BeforeFeed(t, c)
  {
  }

  lemma SpoiledNotDone(r: Session, s: Session, cs: seq<Command>, t: Session, c: Command, later: seq<Event>, limit: nat)
    requires AreCommands(cs) && c in cs && Telling(cs) && Stuck(t, c, s.events + AllEffects(cs), later)
    requires s.events <= t.events && IsCommand(c)
    requires Spoiled(r, t.events, c, limit) && limit == Weigh(s.events) + |AllText(cs)|
    ensures !AllDone(r, s, cs)
  {
    hide CommandLine, AllText, AllEffects, Effects, Weigh, Load, Wrong;
    if c.Leave? {
      if Load(r) < limit {
        LighterNotDone(r, s, cs);
      }
    } else if t.events < r.events && Wrong(c, r.events[|t.events|]) {
      WrongNotDone(r, s, cs, t.events, c, later);
    }
  }

  lemma LighterNotDone(r: Session, s: Session, cs: seq<Command>)
    requires AreCommands(cs) && forall i :: 0 <= i < |cs| ==> !cs[i].BadSet?
    requires Load(r) < Weigh(s.events) + |AllText(cs)|
    ensures !AllDone(r, s, cs)
  {
    hide AllText, AllEffects, Weigh;
    AllEffectsWeigh(cs);
    WeighAppend(s.events, AllEffects(cs));
  }

  lemma WrongNotDone(r: Session, s: Session, cs: seq<Command>, done: seq<Event>, c: Command, later: seq<Event>)
    requires !c.Leave? && s.events + AllEffects(cs) == done + Effects(c) + later
    requires s.events <= done < r.events && Wrong(c, r.events[|done|])
    ensures !AllDone(r, s, cs)
  {
    hide AllEffects;
    var all := s.events + AllEffects(cs);
    if c.GetKey? {
      assert (done + [Lookup(c.key)] + later)[|done|] == Lookup(c.key);
    } else {
      NoErrors(cs);
      assert |done| < |all| ==> all[|done|] in AllEffects(cs);
    }
  }

  lemma {:induction false} NoErrors(cs: seq<Command>)
    ensures Reply(CLIENT_ERROR) !in AllEffects(cs)
    decreases |cs|
  {
    if cs != [] {
      NoErrors(cs[1..]);
    }
  }

  lemma {:induction false} LineFeedNext(cs: seq<Command>, n: nat)
    requires AreCommands(cs) && InLineEnd(cs, n)
    ensures n < |AllText(cs)| && AllText(cs)[n] == '\n'
    decreases |cs|
  {
    if n == |CommandLine(cs[0])| + 1 {
      assert Text(cs[0])[n] == '\n';
    } else {
      var m := n - |Text(cs[0])|;
      if m < 0 {
        NotBeforeStart(cs[1..], m);
      } else {
        LineFeedNext(cs[1..], m);
      }
    }
  }

  /** Pipelined commands, cut into reads in any way: the command lines taken up are those of
      the commands if and only if no read starts at the line feed of a command line. The
      session then does, holds and waits for what a single read of the stream would give, and
      that is exactly what the commands say: each item with its line end stored once, in order,
      as sent, and answered, each item without it skipped, each key looked up, the connection
      shut down at each quit, and nothing left over. Else the outside can tell, unless a
      skipped item hides a lost quit. */
  lemma CommandsExact(s: Session, cs: seq<Command>, pieces: seq<string>)
    requires AtStart(s) && AreCommands(cs) && Concat(pieces) == AllText(cs)
    requires pieces != [] && forall i :: 0 <= i < |pieces| ==> pieces[i] != ""
    ensures var r, atOnce, clean := Feed(s, pieces), Run(s.Append(AllText(cs))), CutsClean(cs, 0, pieces);
            && (r.lines == s.lines + AllLines(cs) <==> clean)
            && (clean ==> r == atOnce && AllDone(r, s, cs))
            && (Telling(cs) ==> (AllDone(r, s, cs) <==> clean) && (Outwardly(r) == Outwardly(atOnce) <==> clean))
  {
    EmptyIsUnit(AllText(cs));
    EmptyIsUnit(s.unread);
    assert s.Append("") == s;
    StartSettles(s, pieces);
    CutsAreSplits(s, "", cs, pieces);
    ConfluenceExact(s, pieces);
    AllTaken(s.Append(AllText(cs)), cs);
    if Telling(cs) && !CutsClean(cs, 0, pieces) {
      BadCutTells(s, "", cs, pieces);
    }
  }

  // ----- a lost quit that nobody notices -----

  /** A set without its line end that has a quit in its data. */
  const HIDING := BadSet(Item("k", 0, 0, "quit" + CRLF), [' ', ' '])

  /** Without `Telling` the outside need not notice a bad cut: where the quit in front is lost
      together with the command line behind it, the data is taken for commands, and these make
      up for the loss. */
  lemma HiddenLoss(s: Session, item: Item)
    requires AtStart(s) && IsItem(item)
    ensures IsCommand(HIDING) && IsCommand(Leave)
    ensures var cs, second := [Leave, HIDING, SetItem(item)], ['\n'] + (Text(HIDING) + Text(SetItem(item)));
            var pieces := ["quit" + ['\r'], second];
            && Concat(pieces) == AllText(cs) && !CutsClean(cs, 0, pieces) && AllDone(Feed(s, pieces), s, cs)
            && Outwardly(Feed(s, pieces)) == Outwardly(Run(s.Append(AllText(cs))))
  {
    hide Run, CommandLine, Ended, Text;
    var cs, rest := [Leave, HIDING, SetItem(item)], Text(HIDING) + Text(SetItem(item));
    QuitText();
    HiddenText(item);
    var first, second, all := "quit" + ['\r'], ['\n'] + rest, AllText(cs);
    assert all == first + second;
    TwoReads(s, first, second, all);
    assert [first, second][1..] == [second];
    HiddenFed(s, item, all);
    HiddenAtOnce(s, item, all);
    AllTaken(s.(unread := all), cs);
    assert InLineEnd(cs, |first|);
  }

  lemma QuitText()
    ensures IsCommand(HIDING) && IsCommand(Leave) && CommandLine(Leave) == "quit" && Text(Leave) == "quit" + CRLF
    ensures Text(HIDING) == CommandLine(HIDING) + CRLF + ("quit" + CRLF + [' ', ' '])
  {
  }

  lemma HiddenText(item: Item)
    requires IsItem(item)
    ensures IsCommand(HIDING) && AllText([Leave, HIDING, SetItem(item)]) ==
            Text(Leave) + (Text(HIDING) + Text(SetItem(item)))
  {
    hide Text;
    QuitText();
    var cs := [Leave, HIDING, SetItem(item)];
    assert cs[1..] == [HIDING, SetItem(item)] && cs[1..][1..] == [SetItem(item)] && cs[1..][1..][1..] == [];
    assert AllText(cs[1..][1..][1..]) == "";
    EmptyIsUnit(Text(SetItem(item)));
    assert AllText(cs[1..][1..]) == Text(SetItem(item));
  }

  /** The session behind the hidden stream, read either way. */
  function Final(s: Session, item: Item): Session {
    Begun(s, SetItem(item)).(unread := "", searchPos := Some(0), lines := [],
                             events := s.events + [Shutdown] + [Stored(item), Reply(STORED)])
  }

  lemma HiddenAtOnce(s: Session, item: Item, all: string)
    requires AtStart(s) && IsItem(item) && IsCommand(HIDING)
    requires all == Text(Leave) + (Text(HIDING) + Text(SetItem(item)))
    ensures Outwardly(Run(s.(unread := all))) == Final(s, item)
  {
    hide Run, Text, CommandLine;
    var text := Text(SetItem(item));
    var t := Ended(s, Leave, Text(HIDING) + text);
    CommandTaken(s.(unread := all), Leave, Text(HIDING) + text);
    var u := Ended(t, HIDING, text);
    CommandTaken(t, HIDING, text);
    EmptyIsUnit(text);
    CommandTaken(u, SetItem(item), "");
    NothingAtHand(Ended(u, SetItem(item), ""));
    assert s.events + [Shutdown] + [] == s.events + [Shutdown];
  }

  lemma HiddenFed(s: Session, item: Item, all: string)
    requires AtStart(s) && IsItem(item) && IsCommand(HIDING)
    requires all == Text(Leave) + (Text(HIDING) + Text(SetItem(item)))
    ensures Outwardly(Run(s.(unread := all, searchPos := Some(5)))) == Final(s, item)
  {
    hide Run, CommandLine, Effects, Value;
    QuitText();
    var c, line := SetItem(item), CommandLine(HIDING);
    var left := [' ', ' '] + CommandLine(c) + CRLF + Value(c);
    var behind := "quit" + CRLF + left;
    assert all == "quit" + (CRLF + line) + CRLF + behind;
    QuitLost(s.(unread := all, searchPos := Some(5)), line, behind);
    var t := s.(unread := behind, lines := s.lines + ["quit" + (CRLF + line)]);
    LineTaken(t, Leave, left);
    var u := Awaiting(t, Leave, left);
    BlanksSkipped(u, c, Value(c));
    var v := Awaiting(u, c, Value(c)).(lines := u.lines + [[' ', ' '] + CommandLine(c)]);
    EmptyIsUnit(Value(c));
    ValueTaken(v, c, "");
    SetEffects(item);
    NothingAtHand(v.(state := ReadCommandLine, unread := "", events := v.events + Effects(c)));
  }

  lemma SetEffects(item: Item)
    ensures Effects(SetItem(item)) == [Stored(item), Reply(STORED)]
  {
  }

  /** The quit is taken up together with the next command line. */
  lemma QuitLost(s: Session, line: string, behind: string)
    requires s.Valid() && s.state == ReadCommandLine && s.searchPos == Some(5)
    requires line == CommandLine(HIDING) && IsCommand(HIDING) && s.unread == "quit" + (CRLF + line) + CRLF + behind
    ensures Run(s) == Run(s.(unread := behind, searchPos := None, lines := s.lines + ["quit" + (CRLF + line)]))
  {
    hide DoRequestCommand, CommandLine, FindCrlfFrom, Run;
    CommandIsOneLine(HIDING);
    SearchedPast(line, behind);
    var taken := "quit" + (CRLF + line);
    RunAgain(s);
    QuitText();
    MergedCommand(s.TakeUp(taken), Leave, line);
  }

  lemma SearchedPast(line: string, behind: string)
    requires '\r' !in line
    ensures var taken := "quit" + (CRLF + line);
            var all := taken + CRLF + behind;
            FindCrlfFrom(all, 5) == Some(|taken|) && all[..|taken|] == taken && all[|taken| + 2..] == behind
  {
    var taken := "quit" + (CRLF + line);
    var all := taken + CRLF + behind;
    assert CrlfAt(all, |taken|);
    forall i | 5 <= i < |taken|
      ensures all[i] != '\r'
    {
      assert all[i] == taken[i] && (i >= 6 ==> taken[i] == line[i - 6]);
    }
  }

  lemma BlanksSkipped(s: Session, c: Command, behind: string)
    requires s.Valid() && s.state == ReadCommandLine && s.searchPos.None? && IsCommand(c)
    requires s.unread == [' ', ' '] + CommandLine(c) + CRLF + behind
    ensures Run(s) == Run(Awaiting(s, c, behind).(lines := s.lines + [[' ', ' '] + CommandLine(c)]))
  {
    hide CommandLine, FindCrlfFrom;
    var line := [' ', ' '] + CommandLine(c);
    CommandIsOneLine(c);
    NoReturnNoCrlf(line, |line|);
    LineAtOnce(s, line, behind);
    BlanksInFront(s.TakeUp(line), CommandLine(c));
    CommandBegun(s.TakeUp(line), c);
  }

  lemma BlanksInFront(s: Session, line: string)
    ensures DoRequestCommand(s, [' ', ' '] + line) == DoRequestCommand(s, line)
  {
    hide DoGet, DoUpdate;
    var more := [' ', ' '] + line;
    assert more[1..][1..] == line;
    assert Words(more) == Words(more[1..]) == Words(line);
  }
}
