/** memcached/server/session.cpp: a connection's command reader. */
module MemcachedSessions {
  import opened Pieces
  import opened TextSearch
  import opened MemcachedCommands

  datatype ReceiveState = ReadCommandLine | ReadValue

  datatype CommandType = Invalid | Set | Get | Quit

  datatype Item = Item(key: string, flag: int, exptime: int, data: string)

  /** What a session does to the outside, in order: a reply handed to the connection (which
      drops it behind a shutdown), an item handed to the store, a lookup in it, and the
      shutdown of the connection's sending side. */
  datatype Event = Reply(text: string) | Stored(item: Item) | Lookup(key: string) | Shutdown

  const LONGEST_KEY := 250
  const TOO_LARGE := 1024 * 1024

  const CLIENT_ERROR := "CLIENT_ERROR bad command line format\r\n"
  const SERVER_ERROR := "SERVER_ERROR object too large for cache\r\n"
  const STORED := "STORED\r\n"

  /** `searchPos` is how much of the unread bytes has been searched for a line end. `lines`
      are the command lines taken up so far, which the outside does not see as such. */
  datatype Session = Session(
    state: ReceiveState, searchPos: Option<nat>, command: CommandType,
    key: string, flag: int, exptime: int, valueLen: int, unread: string,
    events: seq<Event>, lines: seq<string>) {

    predicate Valid() {
      && (searchPos.Some? ==> state == ReadCommandLine && searchPos.value <= |unread|)
      && (state == ReadValue ==> command == Set && 0 <= valueLen < TOO_LARGE)
    }

    function Append(piece: string): Session {
      this.(unread := unread + piece)
    }

    function Log(e: Event): Session {
      this.(events := events + [e])
    }

    function TakeUp(request: string): Session {
      this.(lines := lines + [request])
    }
  }

  const NEW_SESSION := Session(ReadCommandLine, None, Invalid, "", 0, 0, 0, "", [], [])

  // ----- one command -----

  function DoRequestCommand(s: Session, request: string): (Session, bool) {
    var words := Words(request);
    if words == [] then (s, false)
    else if words[0] == "get" then DoGet(s.(command := Get), words[1..])
    else if words[0] == "set" then DoUpdate(s.(command := Set), words[1..])
    else if words[0] == "quit" then (s.(command := Quit).Log(Shutdown), false)
    else (s, false)
  }

  function DoGet(s: Session, args: seq<string>): (Session, bool) {
    if args == [] then (s.Log(Reply(CLIENT_ERROR)), false) else (s.Log(Lookup(args[0])), true)
  }

  function DoUpdate(s: Session, args: seq<string>): (Session, bool) {
    if args == [] then (s.Log(Reply(CLIENT_ERROR)), false)
    else
      var (t, good) := ReadArguments(s.(key := args[0]), args[1..]);
      if !good then (t.Log(Reply(CLIENT_ERROR)), false)
      else if t.valueLen >= TOO_LARGE then (t.Log(Reply(SERVER_ERROR)), false)
      else (t, true)
  }

  /** Key length, then the three numbers as far as they can be read, then their signs. */
  function ReadArguments(s: Session, args: seq<string>): (Session, bool) {
    if |s.key| > LONGEST_KEY || args == [] || ReadNumber(args[0]).None? then (s, false)
    else
      var s1 := s.(flag := ReadNumber(args[0]).value);
      if |args| == 1 || ReadNumber(args[1]).None? then (s1, false)
      else
        var s2 := s1.(exptime := ReadNumber(args[1]).value);
        if |args| == 2 || ReadNumber(args[2]).None? then (s2, false)
        else
          var s3 := s2.(valueLen := ReadNumber(args[2]).value);
          (s3, s3.flag >= 0 && s3.exptime >= 0 && s3.valueLen >= 0)
  }

  /** Apart from what a command may set, the session stays as it is. */
  lemma CommandKeeps(s: Session, request: string)
    ensures var (t, good) := DoRequestCommand(s, request);
            && t.state == s.state && t.searchPos == s.searchPos && t.unread == s.unread
            && s.events <= t.events && s.lines == t.lines
            && (good && t.command == Set ==> 0 <= t.valueLen < TOO_LARGE)
  {
    hide ReadNumber, Words;
  }

  // ----- one message -----

  /** One round of the loop; the flag says whether it goes on. */
  function Step(s: Session): (r: (Session, bool))
    requires s.Valid()
    ensures r.0.Valid() && (r.1 ==> |r.0.unread| < |s.unread|)
  {
    if s.state == ReadCommandLine then
      var from := if s.searchPos.Some? then s.searchPos.value else 0;
      match FindCrlfFrom(s.unread, from)
      case None => (s.(searchPos := Some(|s.unread|)), false)
      case Some(i) => (TakeLine(s, i), true)
    else if |s.unread| >= s.valueLen + 2 then (TakeValue(s), true)
    else (s, false)
  }

  function TakeLine(s: Session, i: nat): (t: Session)
    requires s.Valid() && s.state == ReadCommandLine && i + 2 <= |s.unread|
    ensures t.Valid() && t.searchPos.None? && |t.unread| == |s.unread| - i - 2
  {
    var (t, good) := DoRequestCommand(s.TakeUp(s.unread[..i]), s.unread[..i]);
    CommandKeeps(s.TakeUp(s.unread[..i]), s.unread[..i]);
    t.(unread := s.unread[i + 2..], searchPos := None,
       state := if good && t.command == Set then ReadValue else ReadCommandLine)
  }

  function TakeValue(s: Session): (t: Session)
    requires s.Valid() && s.state == ReadValue && |s.unread| >= s.valueLen + 2
    ensures t.Valid() && |t.unread| < |s.unread|
  {
    var t := s.(unread := s.unread[s.valueLen + 2..], state := ReadCommandLine);
    if s.unread[s.valueLen..s.valueLen + 2] == CRLF then
      t.Log(Stored(Item(s.key, s.flag, s.exptime, s.unread[..s.valueLen]))).Log(Reply(STORED))
    else t
  }

  function Run(s: Session): (r: Session)
    requires s.Valid()
    ensures r.Valid()
    decreases |s.unread|
  {
    var (t, goesOn) := Step(s);
    if goesOn then Run(t) else t
  }

  // ----- the connection object -----

  class MemcachedSession {
    var receiveState: ReceiveState
    var curSearchPos: Option<nat>
    var curCommandType: CommandType
    var curKey: string
    var curFlag: int
    var curExptime: int
    var curValueLen: int
    var buf: string
    ghost var events: seq<Event>
    ghost var lines: seq<string>

    ghost function View(): Session
      reads this
    {
      Session(receiveState, curSearchPos, curCommandType, curKey, curFlag, curExptime, curValueLen, buf, events, lines)
    }

    constructor ()
      ensures View() == NEW_SESSION
    {
      receiveState, curSearchPos, curCommandType := ReadCommandLine, None, Invalid;
      curKey, curFlag, curExptime, curValueLen, buf := "", 0, 0, 0, "";
      events, lines := [], [];
    }

    /** The network appends what it has read and calls this. */
    method OnMessage(piece: string)
      requires View().Valid()
      modifies this
      ensures View().Valid() && View() == Run(old(View()).Append(piece))
    {
      buf := buf + piece;
      ghost var goal := Run(View());
      var goesOn := true;
      while goesOn
        invariant View().Valid()
        invariant if goesOn then Run(View()) == goal else View() == goal
        decreases goesOn, |buf|
      {
        if receiveState == ReadCommandLine {
          goesOn := OnCommandLine();
        } else {
          goesOn := OnValue();
        }
      }
    }

    method OnCommandLine() returns (goesOn: bool)
      requires View().Valid() && receiveState == ReadCommandLine
      modifies this
      ensures (View(), goesOn) == Step(old(View()))
    {
      var crlf;
      if curSearchPos.Some? {
        crlf := FindCrlfFrom(buf, curSearchPos.value);
      } else {
        crlf := FindCrlfFrom(buf, 0);
      }
      match crlf {
        case None =>
          curSearchPos := Some(|buf|);
          return false;
        case Some(i) =>
          HandleLine(i);
          return true;
      }
    }

    method HandleLine(i: nat)
      requires View().Valid() && receiveState == ReadCommandLine && i + 2 <= |buf|
      modifies this
      ensures View() == TakeLine(old(View()), i)
    {
      CommandKeeps(View().TakeUp(buf[..i]), buf[..i]);
      lines := lines + [buf[..i]];
      var good := RequestCommand(buf[..i]);
      buf := buf[i + 2..];
      curSearchPos := None;
      if good && curCommandType == Set {
        receiveState := ReadValue;
      }
    }

    method OnValue() returns (goesOn: bool)
      requires View().Valid() && receiveState == ReadValue
      modifies this
      ensures (View(), goesOn) == Step(old(View()))
    {
      if |buf| < curValueLen + 2 {
        return false;
      }
      if buf[curValueLen..curValueLen + 2] == CRLF {
        StoreData(buf[..curValueLen]);
        if curCommandType == Set {
          Send(STORED);
        }
      }
      buf := buf[curValueLen + 2..];
      receiveState := ReadCommandLine;
      return true;
    }

    method Send(text: string)
      modifies `events
      ensures events == old(events) + [Reply(text)]
    {
      events := events + [Reply(text)];
    }

    method StoreData(data: string)
      modifies `events
      ensures events == old(events) + [Stored(Item(curKey, curFlag, curExptime, data))]
    {
      events := events + [Stored(Item(curKey, curFlag, curExptime, data))];
    }

    method RequestCommand(request: string) returns (good: bool)
      modifies this
      ensures (View(), good) == DoRequestCommand(old(View()), request)
    {
      var tok := new WordReader(request);
      var command := tok.Next();
      if command == None {
        return false;
      }
      if command.value == "get" {
        curCommandType := Get;
        good := GetCommand(tok);
      } else if command.value == "set" {
        curCommandType := Set;
        good := UpdateCommand(tok);
      } else if command.value == "quit" {
        curCommandType := Quit;
        events := events + [Shutdown];
        good := false;
      } else {
        good := false;
      }
    }

    method GetCommand(tok: WordReader) returns (good: bool)
      requires tok.Valid()
      modifies `events, tok
      ensures (View(), good) == DoGet(old(View()), old(tok.Left()))
    {
      var key := tok.Next();
      if key == None {
        Send(CLIENT_ERROR);
        return false;
      }
      events := events + [Lookup(key.value)];
      return true;
    }

    method UpdateCommand(tok: WordReader) returns (good: bool)
      requires tok.Valid()
      modifies this, tok
      ensures (View(), good) == DoUpdate(old(View()), old(tok.Left()))
    {
      var key := tok.Next();
      if key == None {
        Send(CLIENT_ERROR);
        return false;
      }
      curKey := key.value;
      good := NumbersFollow(tok);
      if !good {
        Send(CLIENT_ERROR);
        return false;
      }
      if curValueLen >= TOO_LARGE {
        Send(SERVER_ERROR);
        return false;
      }
      return true;
    }

    method NumbersFollow(tok: WordReader) returns (good: bool)
      requires tok.Valid()
      modifies this, tok
      ensures (View(), good) == ReadArguments(old(View()), old(tok.Left()))
    {
      hide ReadNumber, Words;
      if |curKey| > LONGEST_KEY {
        return false;
      }
      var n := tok.Read();
      if n == None {
        return false;
      }
      curFlag := n.value;
      n := tok.Read();
      if n == None {
        return false;
      }
      curExptime := n.value;
      n := tok.Read();
      if n == None {
        return false;
      }
      curValueLen := n.value;
      return curFlag >= 0 && curExptime >= 0 && curValueLen >= 0;
    }
  }
}
