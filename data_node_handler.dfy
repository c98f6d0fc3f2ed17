/**
 * The storage node's per-connection handler (DataNodeHandler.run): it trims
 * the command line, splits it at the first space, matches the verb without
 * regard to case, calls the node and builds the reply text.
 *
 * The messages the coordinator sends to a storage node are built here too,
 * so that their round trip through the handler's parser can be stated.
 */
module StorageProtocol {
  import opened JavaString
  import Storage

  /** A command line as the handler understands it. */
  datatype Command =
    | Alloc
    | ReadBlock(blockId: int)
    | WriteBlock(blockId: int, data: string)
    | Unknown

  const COMPLETE: string := "COMPLETE"
  const INVALID_COMMAND: string := "ERROR: Invalid Command"

  /**
   * Parses one command line. None stands for the lines on which the Java
   * handler throws before replying: READ or WRITE without an argument, a
   * block number Integer.parseInt rejects, WRITE without data.
   */
  function ParseCommand(line: string): Option<Command> {
    var (key, rest) := SplitFirst(Trim(line));
    ParseVerb(ToUpper(key), rest)
  }

  /** The switch on the upper-cased verb, given the text after the first space. */
  function ParseVerb(verb: string, rest: Option<string>): Option<Command> {
    if verb == "ALLOC" then Some(Alloc)
    else if verb == "READ" then
      match rest
      case None => None
      case Some(arg) =>
        match ParseInt(arg)
        case None => None
        case Some(id) => Some(ReadBlock(id))
    else if verb == "WRITE" then
      match rest
      case None => None
      case Some(arg) =>
        var (idText, data) := SplitFirst(arg);
        match (ParseInt(idText), data)
        case (Some(id), Some(d)) => Some(WriteBlock(id, d))
        case _ => None
    else Some(Unknown)
  }

  /**
   * What the handler does with one line on a node in state s: the text it
   * writes back (None when it throws and writes nothing; a null reply is
   * printed as "null") and the node's new state.
   */
  function Respond(dataDirectory: string, s: Storage.Store, line: string): (Option<string>, Storage.Store) {
    Execute(dataDirectory, s, ParseCommand(line))
  }

  /** The switch of run on a parsed command: the node call and the reply it leads to. */
  function Execute(dataDirectory: string, s: Storage.Store, command: Option<Command>): (Option<string>, Storage.Store) {
    match command
    case None => (None, s)
    case Some(Alloc) => AllocReplyOf(dataDirectory, s)
    case Some(ReadBlock(id)) => (Some(StringOf(Storage.Read(s, id))), s)
    case Some(WriteBlock(id, d)) => (Some(COMPLETE), Storage.Write(s, id, d).1)
    case Some(Unknown) => (Some(INVALID_COMMAND), s)
  }

  /** ALLOC: the decimal form of the block allocateBlock returns. */
  function AllocReplyOf(dataDirectory: string, s: Storage.Store): (Option<string>, Storage.Store) {
    var (id, t) := Storage.Allocate(dataDirectory, s);
    (Some(IntToString(id)), t)
  }

  /** DataNodeHandler.run on one command line, with the node called in place. */
  method Run(node: Storage.DataNode, line: string) returns (reply: Option<string>)
    requires node.Valid()
    modifies node
    ensures node.Valid()
    ensures (reply, node.State()) == Respond(node.dataDirectory, old(node.State()), line)
  {
    var parsed := ParseCommand(line);
    match parsed
    case None =>
      reply := None;
    case Some(Alloc) =>
      var allocatedBlock := node.AllocateBlock();
      reply := Some(IntToString(allocatedBlock));
    case Some(ReadBlock(id)) =>
      var blockContents := node.ReadBlock(id);
      reply := Some(StringOf(blockContents));
    case Some(WriteBlock(id, d)) =>
      var _ := node.WriteBlock(id, d);
      reply := Some(COMPLETE);
    case Some(Unknown) =>
      reply := Some(INVALID_COMMAND);
  }

  // ---------------------------------------------------------------------
  // The coordinator's messages to a storage node
  // ---------------------------------------------------------------------

  const ALLOC_MESSAGE: string := "Alloc"

  function WriteMessage(blockId: int, segment: string): string {
    "Write " + IntToString(blockId) + " " + segment
  }

  function ReadMessage(blockId: int): string {
    "Read " + IntToString(blockId)
  }

  lemma TrimStartKeeps(s: string)
    requires s != [] && !IsTrimmable(s[0])
    ensures TrimStart(s) == s
  {
  }

  /** "Alloc" parses as the ALLOC command. */
  lemma AllocMessageParses()
    ensures ParseCommand(ALLOC_MESSAGE) == Some(Alloc)
  {
    assert Trim(ALLOC_MESSAGE) == ALLOC_MESSAGE;
    assert SplitFirst(ALLOC_MESSAGE) == (ALLOC_MESSAGE, None);
    assert ToUpper(ALLOC_MESSAGE) == "ALLOC";
  }

  /** "Read <n>" parses back to a read of block n. */
  lemma ReadMessageParses(n: int)
    requires INT_MIN <= n <= INT_MAX
    ensures ParseCommand(ReadMessage(n)) == Some(ReadBlock(n))
  {
    var d := IntToString(n);
    ReadLineSplits(n);
    UpperRead();
    assert ParseCommand(ReadMessage(n)) == ParseVerb("READ", Some(d));
    ParseIntOfIntToString(n);
    ReadVerb(d, n);
  }

  /** The trimmed read message splits into the verb and the block number's text. */
  lemma ReadLineSplits(n: int)
    ensures SplitFirst(Trim(ReadMessage(n))) == ("Read", Some(IntToString(n)))
  {
    var d := IntToString(n);
    var line := ReadMessage(n);
    assert "Read " == "Read" + " ";
    assert line == "Read" + " " + d;
    assert line[0] == 'R' && line[|line| - 1] == d[|d| - 1];
    TrimKeepsEnds(line);
    SplitFirstOf("Read", d);
  }

  /** The READ branch of the switch, for an argument that is a block number. */
  lemma ReadVerb(arg: string, id: int)
    requires ParseInt(arg) == Some(id)
    ensures ParseVerb("READ", Some(arg)) == Some(ReadBlock(id))
  {
    UpperRead();
  }

  lemma UpperRead()
    ensures ToUpper("Read") == "READ"
    ensures "READ" != "ALLOC"
  {
    assert "READ"[0] != "ALLOC"[0];
  }

  /**
   * The handler's trim removes trailing white space from the whole line, so
   * "Write <n> <segment>" stores the segment without its trailing white
   * space, and a blank segment leaves WRITE without data, which throws.
   */
  lemma WriteMessageParses(n: int, segment: string)
    requires INT_MIN <= n <= INT_MAX
    ensures TrimEnd(segment) != [] ==> ParseCommand(WriteMessage(n, segment)) == Some(WriteBlock(n, TrimEnd(segment)))
    ensures TrimEnd(segment) == [] ==> ParseCommand(WriteMessage(n, segment)) == None
  {
    var d := IntToString(n);
    var body := if TrimEnd(segment) != [] then d + " " + TrimEnd(segment) else d;
    WriteLineSplits(n, segment);
    UpperWrite();
    assert ParseCommand(WriteMessage(n, segment)) == ParseVerb("WRITE", Some(body));
    ParseIntOfIntToString(n);
    if TrimEnd(segment) != [] {
      SplitFirstOf(d, TrimEnd(segment));
      WriteVerb(body, n, Some(TrimEnd(segment)));
    } else {
      WriteVerb(body, n, None);
    }
  }

  /** The WRITE branch of the switch, for an argument whose first word is a block number. */
  lemma WriteVerb(arg: string, id: int, data: Option<string>)
    requires ParseInt(SplitFirst(arg).0) == Some(id) && SplitFirst(arg).1 == data
    ensures data.Some? ==> ParseVerb("WRITE", Some(arg)) == Some(WriteBlock(id, data.value))
    ensures data.None? ==> ParseVerb("WRITE", Some(arg)) == None
  {
    UpperWrite();
  }

  lemma UpperWrite()
    ensures ToUpper("Write") == "WRITE"
    ensures "WRITE" != "ALLOC" && "WRITE" != "READ"
  {
    assert "WRITE"[0] != "ALLOC"[0] && "WRITE"[0] != "READ"[0];
  }

  /** The trimmed write message splits into the verb and the rest after the first space. */
  lemma WriteLineSplits(n: int, segment: string)
    ensures var d := IntToString(n);
      SplitFirst(Trim(WriteMessage(n, segment)))
        == if TrimEnd(segment) != [] then ("Write", Some(d + " " + TrimEnd(segment))) else ("Write", Some(d))
  {
    var d := IntToString(n);
    var body := if TrimEnd(segment) != [] then d + " " + TrimEnd(segment) else d;
    TrimmedWriteMessage(n, segment);
    assert Trim(WriteMessage(n, segment)) == "Write" + " " + body;
    SplitFirstOf("Write", body);
  }

  lemma TrimmedWriteMessage(n: int, segment: string)
    ensures var d := IntToString(n);
      Trim(WriteMessage(n, segment))
        == "Write" + " " + (if TrimEnd(segment) != [] then d + " " + TrimEnd(segment) else d)
  {
    var d := IntToString(n);
    var u := "Write" + " " + (if TrimEnd(segment) != [] then d + " " + TrimEnd(segment) else d);
    TrimEndWriteMessage(n, segment);
    assert u[0] == 'W';
    TrimStartKeeps(u);
  }

  lemma TrimEndWriteMessage(n: int, segment: string)
    ensures var d := IntToString(n);
      TrimEnd(WriteMessage(n, segment))
        == "Write" + " " + (if TrimEnd(segment) != [] then d + " " + TrimEnd(segment) else d)
  {
    if TrimEnd(segment) != [] {
      TrimEndWriteKept(n, segment);
    } else {
      TrimEndWriteBlank(n, segment);
    }
  }

  lemma TrimEndWriteKept(n: int, segment: string)
    requires TrimEnd(segment) != []
    ensures TrimEnd(WriteMessage(n, segment)) == "Write" + " " + (IntToString(n) + " " + TrimEnd(segment))
  {
    var d := IntToString(n);
    var prefix := "Write " + d + " ";
    assert WriteMessage(n, segment) == prefix + segment;
    TrimEndAppend(prefix, segment);
    assert "Write " == "Write" + " ";
    Regroup("Write", d, TrimEnd(segment));
  }

  lemma Regroup(w: string, d: string, t: string)
    ensures w + " " + d + " " + t == w + " " + (d + " " + t)
  {
  }

  lemma TrimEndWriteBlank(n: int, segment: string)
    requires TrimEnd(segment) == []
    ensures TrimEnd(WriteMessage(n, segment)) == "Write" + " " + IntToString(n)
  {
    var d := IntToString(n);
    var prefix := "Write " + d + " ";
    assert WriteMessage(n, segment) == prefix + segment;
    TrimEndBlankTail(prefix, segment);
    TrimEndDropsSpace("Write " + d);
    assert prefix == ("Write " + d) + [' '];
    assert "Write " + d == "Write" + " " + d;
  }

  /** One trailing space after a text that does not end in white space is all TrimEnd removes. */
  lemma TrimEndDropsSpace(p: string)
    requires p != [] && !IsTrimmable(p[|p| - 1])
    ensures TrimEnd(p + [' ']) == p
  {
    assert (p + [' '])[..|p|] == p;
  }

  /**
   * The coordinator's write message reaches the node intact when the segment
   * is non-empty and does not end in white space.
   */
  lemma WriteMessageRoundTrip(n: int, segment: string)
    requires INT_MIN <= n <= INT_MAX
    requires segment != [] && !IsTrimmable(segment[|segment| - 1])
    ensures ParseCommand(WriteMessage(n, segment)) == Some(WriteBlock(n, segment))
  {
    WriteMessageParses(n, segment);
  }

  /**
   * The coordinator's write message stores the segment without its trailing
   * white space and replies COMPLETE; a segment that is all white space
   * leaves the message without data, and the handler throws before touching
   * the node.
   */
  lemma WriteReply(dataDirectory: string, s: Storage.Store, n: int, segment: string)
    requires INT_MIN <= n <= INT_MAX
    ensures TrimEnd(segment) != [] ==>
      Respond(dataDirectory, s, WriteMessage(n, segment)) == (Some(COMPLETE), Storage.Write(s, n, TrimEnd(segment)).1)
    ensures TrimEnd(segment) == [] ==> Respond(dataDirectory, s, WriteMessage(n, segment)) == (None, s)
  {
    WriteMessageParses(n, segment);
    var line := WriteMessage(n, segment);
    if TrimEnd(segment) != [] {
      RespondToWrite(dataDirectory, s, line, n, TrimEnd(segment));
    } else {
      RespondToBroken(dataDirectory, s, line);
    }
  }

  /** Unfolding step for WriteReply: a line that parses as a write replies COMPLETE and writes. */
  lemma RespondToWrite(dataDirectory: string, s: Storage.Store, line: string, id: int, d: string)
    requires ParseCommand(line) == Some(WriteBlock(id, d))
    ensures Respond(dataDirectory, s, line) == (Some(COMPLETE), Storage.Write(s, id, d).1)
  {
    ExecuteWrite(dataDirectory, s, id, d);
  }

  /** Unfolding step for RespondToWrite: the switch's WRITE case on its own, kept apart to keep that proof small. */
  lemma ExecuteWrite(dataDirectory: string, s: Storage.Store, id: int, d: string)
    ensures Execute(dataDirectory, s, Some(WriteBlock(id, d))) == (Some(COMPLETE), Storage.Write(s, id, d).1)
  {
  }

  /**
   * The verb is matched without regard to case: two lines whose verbs agree
   * ignoring case, with the same text after the first space, parse alike.
   */
  lemma VerbIgnoresCase(line1: string, line2: string)
    requires EqualsIgnoreCase(SplitFirst(Trim(line1)).0, SplitFirst(Trim(line2)).0)
    requires SplitFirst(Trim(line1)).1 == SplitFirst(Trim(line2)).1
    ensures ParseCommand(line1) == ParseCommand(line2)
  {
  }

  /** Any other verb: the reply is the invalid-command error and the node is not called. */
  lemma UnknownVerbReply(dataDirectory: string, s: Storage.Store, line: string)
    requires var verb := ToUpper(SplitFirst(Trim(line)).0); verb != "ALLOC" && verb != "READ" && verb != "WRITE"
    ensures Respond(dataDirectory, s, line) == (Some(INVALID_COMMAND), s)
  {
    assert ParseCommand(line) == Some(Unknown);
  }

  /** Unfolding step for WriteReply: a line on which the handler throws leaves the node as it was. */
  lemma RespondToBroken(dataDirectory: string, s: Storage.Store, line: string)
    requires ParseCommand(line) == None
    ensures Respond(dataDirectory, s, line) == (None, s)
  {
  }

  /** "Read <n>" answers with the block's text (null written as "null") and changes nothing. */
  lemma ReadReply(dataDirectory: string, s: Storage.Store, n: int)
    requires INT_MIN <= n <= INT_MAX
    ensures Respond(dataDirectory, s, ReadMessage(n)) == (Some(StringOf(Storage.Read(s, n))), s)
  {
    ReadMessageParses(n);
  }

  /**
   * ALLOC replies "-1" exactly when the node is full; otherwise the reply is
   * the decimal form of the id handed out, which Integer.parseInt reads back.
   */
  lemma AllocReply(dataDirectory: string, s: Storage.Store)
    requires Storage.Inv(dataDirectory, s)
    ensures var (reply, t) := Respond(dataDirectory, s, ALLOC_MESSAGE);
      && reply.Some?
      && (reply == Some("-1") <==> s.available == [])
      && (reply != Some("-1") ==> ParseInt(reply.value) == Some(Storage.Allocate(dataDirectory, s).0))
      && t == Storage.Allocate(dataDirectory, s).1
  {
    AllocExchange(dataDirectory, s);
    AllocReplyText(dataDirectory, s);
  }

  /** "Alloc" reaches the ALLOC branch of the switch. */
  lemma AllocExchange(dataDirectory: string, s: Storage.Store)
    ensures Respond(dataDirectory, s, ALLOC_MESSAGE) == AllocReplyOf(dataDirectory, s)
  {
    AllocMessageParses();
  }

  /** The ALLOC reply is never empty, is "-1" exactly on a full node, and otherwise parses back to the block handed out. */
  lemma AllocReplyText(dataDirectory: string, s: Storage.Store)
    requires Storage.Inv(dataDirectory, s)
    ensures var reply := AllocReplyOf(dataDirectory, s).0;
      && reply.Some? && reply.value != []
      && (reply.value == "-1" <==> s.available == [])
      && (reply.value != "-1" ==> ParseInt(reply.value) == Some(Storage.Allocate(dataDirectory, s).0))
  {
    Storage.AllocateNext(dataDirectory, s);
    var id := Storage.Allocate(dataDirectory, s).0;
    if id != -1 {
      assert id >= 0;
      assert IsDigit(IntToString(id)[0]) && !IsDigit("-1"[0]);
      ParseIntOfIntToString(id);
    } else {
      assert NatToString(1) == "1";
      assert IntToString(id) == "-1";
    }
  }
}
