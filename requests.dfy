/**
 * The coordinator's reading of one client line (NameNode.NameNodeHandler.run):
 * "." ends the session, "shutdown" in any case and with surrounding white
 * space stops the coordinator, "read <file>" needs exactly two
 * space-separated tokens, "append <file> <content>" at least three, with the
 * content being everything after the second space; anything else is ignored.
 */
module Requests {
  import opened JavaString

  datatype Request =
    | EndSession
    | Shutdown
    | ReadFile(filename: string)
    | AppendFile(filename: string, content: string)
    | Unrecognised
      /** The line splits into no token at all, and tokens[0] throws. */
    | Broken

  const SHUTDOWN_REPLY: string := "NameNode is shutting down."

  function ParseRequest(line: string): Request {
    if line == "." then EndSession
    else if EqualsIgnoreCase("shutdown", Trim(line)) then Shutdown
    else
      var tokens := Split(line);
      if tokens == [] then Broken
      else if EqualsIgnoreCase(tokens[0], "read") && |tokens| == 2 then ReadFile(tokens[1])
      else if EqualsIgnoreCase(tokens[0], "append") && |tokens| >= 3 then
        SplitLimit3HasThree(line);
        AppendFile(tokens[1], SplitLimit3(line)[2])
      else Unrecognised
  }

  /** Three tokens mean at least two spaces, so split(" ", 3) has a third element. */
  lemma SplitLimit3HasThree(line: string)
    requires |Split(line)| >= 3
    ensures |SplitLimit3(line)| == 3
  {
    assert !NoSpace(line);
    var (head, rest) := SplitFirst(line);
    assert SplitAll(line) == [head] + SplitAll(rest.value);
    assert |SplitAll(rest.value)| >= 2;
    assert !NoSpace(rest.value);
  }

  /** The third piece of split(" ", 3) is what follows the first two spaces of the line. */
  lemma SplitLimit3Shorter(line: string)
    requires |SplitLimit3(line)| == 3
    ensures |SplitLimit3(line)[2]| < |line|
    ensures SplitLimit3(line)[2] == line[|line| - |SplitLimit3(line)[2]|..]
  {
    var (first, rest) := SplitFirst(line);
    var i := IndexOf(line, ' ');
    assert rest.value == line[i + 1..];
    var (second, rest2) := SplitFirst(rest.value);
    var j := IndexOf(rest.value, ' ');
    assert rest2.value == line[i + 1..][j + 1..] == line[i + j + 2..];
  }

  /** A line that is "shutdown" in any mix of cases, between blanks, is the shutdown request. */
  lemma ShutdownInAnyCase(pre: string, word: string, post: string)
    requires forall i :: 0 <= i < |pre| ==> IsTrimmable(pre[i])
    requires forall i :: 0 <= i < |post| ==> IsTrimmable(post[i])
    requires ToUpper(word) == "SHUTDOWN"
    ensures ParseRequest(pre + word + post) == Shutdown
  {
    TrimAroundWord(pre, word, post);
    Keywords();
  }

  lemma TrimAroundWord(pre: string, word: string, post: string)
    requires forall i :: 0 <= i < |pre| ==> IsTrimmable(pre[i])
    requires forall i :: 0 <= i < |post| ==> IsTrimmable(post[i])
    requires ToUpper(word) == "SHUTDOWN"
    ensures Trim(pre + word + post) == word
  {
    assert ToUpper(word)[0] == 'S' && ToUpper(word)[7] == 'N';
    TrimBlankAround(pre, word, post);
  }

  lemma Keywords()
    ensures ToUpper("shutdown") == "SHUTDOWN"
    ensures ToUpper("read") == "READ" && ToUpper("append") == "APPEND"
  {
  }

  /** The first character of the trimmed line is the line's first one, so it is not "shutdown" when that is not s or S. */
  lemma NotShutdown(line: string, k: nat)
    requires k < |line| && !IsTrimmable(line[0]) && !IsTrimmable(line[k])
    requires ToUpperChar(line[0]) != 'S'
    ensures !EqualsIgnoreCase("shutdown", Trim(line))
  {
    TrimKeepsHead(line, k);
    assert ToUpper("shutdown")[0] == 'S';
    assert ToUpper(Trim(line))[0] == ToUpperChar(line[0]);
  }

  /** "read <file>" is a read of that file, for a file name without spaces. */
  lemma ReadRequestOf(filename: string)
    requires filename != [] && NoSpace(filename)
    ensures ParseRequest("read " + filename) == ReadFile(filename)
  {
    var line := "read " + filename;
    assert "read " == "read" + " ";
    assert line == "read" + " " + filename;
    NotShutdown(line, 3);
    SplitFirstOf("read", filename);
    SplitOfOneWord(line, "read", filename);
  }

  /**
   * "append <file> <content>" appends the whole content, interior spaces
   * included, for a file name without spaces and a content that does not
   * end in a space.
   */
  lemma AppendRequestOf(filename: string, content: string)
    requires filename != [] && NoSpace(filename)
    requires content != [] && content[|content| - 1] != ' '
    ensures ParseRequest("append " + filename + " " + content) == AppendFile(filename, content)
  {
    var line := "append " + filename + " " + content;
    NotShutdown(line, 5);
    AppendLineTokens(filename, content);
    Keywords();
    assert !EqualsIgnoreCase("append", "read");
  }

  lemma AppendLineTokens(filename: string, content: string)
    requires filename != [] && NoSpace(filename)
    requires content != [] && content[|content| - 1] != ' '
    ensures var line := "append " + filename + " " + content;
      && |Split(line)| >= 3 && Split(line)[0] == "append" && Split(line)[1] == filename
      && SplitLimit3(line) == ["append", filename, content]
  {
    var line := "append " + filename + " " + content;
    assert line == "append" + " " + filename + " " + content;
    SplitOfTwo("append", filename, content);
    SplitLimit3OfTwo("append", filename, content);
  }

  /** The content of an append is a proper suffix of its line, so it is shorter. */
  lemma AppendContentShorter(line: string)
    ensures ParseRequest(line).AppendFile? ==> |ParseRequest(line).content| < |line|
    ensures ParseRequest(line).AppendFile? ==>
      ParseRequest(line).content == line[|line| - |ParseRequest(line).content|..]
  {
    if line != "." && !EqualsIgnoreCase("shutdown", Trim(line)) {
      var tokens := Split(line);
      if tokens != [] && !(EqualsIgnoreCase(tokens[0], "read") && |tokens| == 2)
         && EqualsIgnoreCase(tokens[0], "append") && |tokens| >= 3 {
        SplitLimit3HasThree(line);
        SplitLimit3Shorter(line);
      }
    }
  }
}
