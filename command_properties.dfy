/** What the parser of poc/src/commands.rs promises about whole lines: the
    outcome per head, the treatment of line endings, letter case and spaces,
    and that the syntax documented by the help menu parses back to the
    command it describes. */
module CommandProperties {
  import opened Text
  import opened Commands

  // ---------------------------------------------------------------------
  // Line endings
  // ---------------------------------------------------------------------

  /** Appending a line ending and trimming gives the line back; a `\n` alone
      is enough unless the line itself ends in `\r`. */
  lemma TrimRemovesOneEnding(line: string)
    ensures TrimmedLine(line + "\r\n") == line
    ensures !EndsWith(line, '\r') <==> TrimmedLine(line + "\n") == line
  {
  }

  /** A second trim changes nothing exactly when the first one did not leave
      a final `\n`; a line ending in two line feeds loses one per call. */
  lemma TrimIdempotentIff(s: string)
    ensures TrimmedLine(TrimmedLine(s)) == TrimmedLine(s) <==> !EndsWith(TrimmedLine(s), '\n')
    ensures TrimmedLine("a\n\n") == "a\n" && TrimmedLine(TrimmedLine("a\n\n")) == "a"
  {
  }

  /** A line ending never changes what a line parses to. */
  lemma LineEndingIgnored(line: string)
    requires !EndsWith(line, '\n')
    ensures ParseLine(line + "\r\n") == ParseLine(line)
    ensures !EndsWith(line, '\r') ==> ParseLine(line + "\n") == ParseLine(line)
  {
    TrimRemovesOneEnding(line);
  }

  // ---------------------------------------------------------------------
  // Tokens
  // ---------------------------------------------------------------------

  /** A line made of words separated by single spaces tokenises back into
      exactly those words. */
  lemma {:induction false} TokensOfWords(ws: seq<string>)
    requires |ws| >= 1
    requires forall i :: 0 <= i < |ws| ==> ' ' !in ws[i]
    requires !EndsWith(ws[|ws| - 1], '\n')
    ensures TrimmedLine(Join(ws, ' ')) == Join(ws, ' ')
    ensures LineTokens(Join(ws, ' ')) == ws
  {
    if EndsWith(Join(ws, ' '), '\n') {
      JoinEndsWith(ws, ' ', '\n');
      assert false;
    }
    SplitJoin(ws, ' ');
  }

  /** A line of single-space separated words parses as the dispatch of its
      lowercased first word with all the words as arguments. */
  lemma ParseWords(ws: seq<string>)
    requires |ws| >= 1
    requires forall i :: 0 <= i < |ws| ==> ' ' !in ws[i]
    requires !EndsWith(ws[|ws| - 1], '\n')
    ensures ParseLine(Join(ws, ' ')) == Dispatch(Lower(ws[0]), ws, Join(ws, ' '))
  {
    TokensOfWords(ws);
  }

  lemma JoinThree(a: string, b: string, c: string)
    ensures Join([a, b, c], ' ') == a + " " + b + " " + c
  {
    assert [a, b, c][1..] == [b, c];
    assert [b, c][1..] == [c];
    assert Join([c], ' ') == c;
    assert Join([b, c], ' ') == b + " " + c;
  }

  /** Two spaces in a row produce an empty token, which shifts the arguments
      after it one place to the right. */
  lemma DoubleSpaceShiftsArguments(u: string, v: string)
    requires ' ' !in u && ' ' !in v && !EndsWith(v, '\n')
    ensures ParseLine("publish  " + u + " " + v) == Directory(Publish("", u))
  {
    var ws := ["publish", "", u, v];
    assert ws[1..] == ["", u, v];
    JoinThree("", u, v);
    assert Join(ws, ' ') == "publish  " + u + " " + v;
    LowerAnyCase("publish", "publish");
    ParseWords(ws);
  }

  // ---------------------------------------------------------------------
  // Outcome per head
  // ---------------------------------------------------------------------

  /** A head of the shell vocabulary, spelled in any letter case, gives its
      command whatever tokens follow it; no other head gives one of these. */
  lemma ShellCommandInAnyCase(line: string, v: string)
    requires v in ShellVocabulary
    requires SpelledInAnyCase(LineTokens(line)[0], v)
    ensures ParseLine(line) == ShellCommand(v)
  {
    LowerAnyCase(LineTokens(line)[0], v);
  }

  /** The four shell commands are given for exactly their heads. */
  lemma ShellCommandsExactly(line: string)
    ensures ParseLine(line) == Exit <==> Lower(LineTokens(line)[0]) in {"exit", "x"}
    ensures ParseLine(line) == Help <==> Lower(LineTokens(line)[0]) in {"help", "?"}
    ensures ParseLine(line) == Flush <==> Lower(LineTokens(line)[0]) == "flush"
    ensures ParseLine(line) == Info <==> Lower(LineTokens(line)[0]) == "info"
  {
  }

  /** `publish` takes its user and value verbatim from the second and third
      tokens; with fewer tokens the arguments are invalid, the head is not
      unknown. */
  lemma PublishArguments(line: string)
    requires Lower(LineTokens(line)[0]) == "publish"
    ensures var parts := LineTokens(line);
      ParseLine(line) == if |parts| >= 3 then Directory(Publish(parts[1], parts[2]))
                         else InvalidArgs(InvalidArgsMessage("publish"))
  {
  }

  /** `lookup` and `history` take the user from the second token. */
  lemma LookupAndHistoryArguments(line: string)
    requires Lower(LineTokens(line)[0]) in {"lookup", "history"}
    ensures var parts := LineTokens(line);
      var head := Lower(parts[0]);
      ParseLine(line) == if |parts| < 2 then InvalidArgs(InvalidArgsMessage(head))
                         else if head == "lookup" then Directory(Lookup(parts[1]))
                         else Directory(KeyHistory(parts[1]))
  {
  }

  /** `audit` succeeds exactly when the second and third tokens both parse as
      `u64`, and then carries those values in order, whichever is larger. */
  lemma AuditArguments(line: string)
    requires Lower(LineTokens(line)[0]) == "audit"
    ensures var parts := LineTokens(line);
      var ok := |parts| >= 3 && ParseU64(parts[1]).Some? && ParseU64(parts[2]).Some?;
      ParseLine(line) == if ok then Directory(Audit(ParseU64(parts[1]).value, ParseU64(parts[2]).value))
                         else InvalidArgs(InvalidArgsMessage("audit"))
  {
  }

  /** `root` and `root_hash` never give `InvalidArgs`: the epoch is the parsed
      second token when there is one that parses, and `None` otherwise. */
  lemma RootHashArguments(line: string)
    requires Lower(LineTokens(line)[0]) in {"root", "root_hash"}
    ensures var parts := LineTokens(line);
      ParseLine(line) == Directory(RootHash(if |parts| > 1 then ParseU64(parts[1]) else None))
  {
  }

  /** An epoch that does not parse is an error for `audit`, in either
      position. */
  lemma AuditRejectsUnparsable(x: string, y: string)
    requires ' ' !in x && ' ' !in y && !EndsWith(y, '\n')
    requires ParseU64(x) == None || ParseU64(y) == None
    ensures ParseLine(Join(["audit", x, y], ' ')) == InvalidArgs(InvalidArgsMessage("audit"))
  {
    var ws := ["audit", x, y];
    LowerAnyCase("audit", "audit");
    assert Dispatch("audit", ws, Join(ws, ' ')) == InvalidArgs(InvalidArgsMessage("audit"));
    ParseWords(ws);
  }

  /** The same epoch is silently dropped by `root`. */
  lemma RootIgnoresUnparsable(bad: string)
    requires ' ' !in bad && !EndsWith(bad, '\n') && ParseU64(bad) == None
    ensures ParseLine("root " + bad) == Directory(RootHash(None))
  {
    var ws := ["root", bad];
    LowerAnyCase("root", "root");
    assert Join(ws, ' ') == "root " + bad;
    assert Dispatch("root", ws, "root " + bad) == Directory(RootHash(None));
    ParseWords(ws);
  }

  /** Only the head is case-folded: two lines that differ only in the case of
      the head parse to the same command, unless that command is `Unknown`,
      which echoes the line as typed. */
  lemma HeadCaseInsensitive(ws1: seq<string>, ws2: seq<string>)
    requires |ws1| == |ws2| >= 1 && ws1[1..] == ws2[1..]
    requires Lower(ws1[0]) == Lower(ws2[0])
    requires forall i :: 0 <= i < |ws1| ==> ' ' !in ws1[i] && ' ' !in ws2[i]
    requires !EndsWith(ws1[|ws1| - 1], '\n') && !EndsWith(ws2[|ws2| - 1], '\n')
    ensures ParseLine(Join(ws1, ' ')).Unknown? == ParseLine(Join(ws2, ' ')).Unknown?
    ensures !ParseLine(Join(ws1, ' ')).Unknown? ==> ParseLine(Join(ws1, ' ')) == ParseLine(Join(ws2, ' '))
  {
    ParseWords(ws1);
    ParseWords(ws2);
    DispatchIgnoresHeadToken(Lower(ws1[0]), ws1, ws2, Join(ws1, ' '), Join(ws2, ' '));
  }

  /** The validators read only the tokens after the head. */
  lemma DispatchIgnoresHeadToken(command: string, p1: seq<string>, p2: seq<string>, t1: string, t2: string)
    requires |p1| == |p2| >= 1 && p1[1..] == p2[1..]
    ensures Dispatch(command, p1, t1).Unknown? == Dispatch(command, p2, t2).Unknown?
    ensures !Dispatch(command, p1, t1).Unknown? ==> Dispatch(command, p1, t1) == Dispatch(command, p2, t2)
  {
  }

  // ---------------------------------------------------------------------
  // The documented syntax parses back to its command
  // ---------------------------------------------------------------------

  /** The words of a directory command in the syntax the help menu lists. */
  function Words(d: DirectoryCommand): (ws: seq<string>)
    ensures |ws| >= 1
  {
    match d
    case Publish(u, v) => ["publish", u, v]
    case Lookup(u) => ["lookup", u]
    case KeyHistory(u) => ["history", u]
    case Audit(a, b) => ["audit", DecimalString(a), DecimalString(b)]
    case RootHash(None) => ["root"]
    case RootHash(Some(n)) => ["root", DecimalString(n)]
  }

  /** A line that asks for `c`. An `Unknown` command is its own line.
      `InvalidArgs` reports a rejected line and is asked for by none. */
  function Render(c: Command): string
    requires !c.InvalidArgs?
  {
    match c
    case Exit => "exit"
    case Help => "help"
    case Flush => "flush"
    case Info => "info"
    case Directory(d) => Join(Words(d), ' ')
    case Unknown(t) => t
  }

  /** Commands a line can ask for: user names and values without spaces
      whose last one does not end in `\n`, and unknown lines whose head is
      outside the vocabulary. */
  predicate Renderable(c: Command) {
    match c
    case InvalidArgs(_) => false
    case Unknown(t) => !EndsWith(t, '\n') && Lower(Split(t, ' ')[0]) !in Vocabulary
    case Directory(Publish(u, v)) => ' ' !in u && ' ' !in v && !EndsWith(v, '\n')
    case Directory(Lookup(u)) => ' ' !in u && !EndsWith(u, '\n')
    case Directory(KeyHistory(u)) => ' ' !in u && !EndsWith(u, '\n')
    case _ => true
  }

  lemma DecimalIsWord(n: nat)
    ensures ' ' !in DecimalString(n) && !EndsWith(DecimalString(n), '\n')
  {
  }

  lemma RenderPublish(u: string, v: string)
    requires ' ' !in u && ' ' !in v && !EndsWith(v, '\n')
    ensures ParseLine(Join(["publish", u, v], ' ')) == Directory(Publish(u, v))
  {
    var ws := ["publish", u, v];
    LowerAnyCase("publish", "publish");
    assert Dispatch("publish", ws, Join(ws, ' ')) == Directory(Publish(u, v));
    ParseWords(ws);
  }

  lemma RenderUser(head: string, u: string)
    requires head in {"lookup", "history"}
    requires ' ' !in u && !EndsWith(u, '\n')
    ensures ParseLine(Join([head, u], ' ')) == Directory(if head == "lookup" then Lookup(u) else KeyHistory(u))
  {
    var ws := [head, u];
    LowerAnyCase(head, head);
    assert Dispatch(head, ws, Join(ws, ' ')) == Directory(if head == "lookup" then Lookup(u) else KeyHistory(u));
    ParseWords(ws);
  }

  lemma RenderAudit(a: U64, b: U64)
    ensures ParseLine(Join(["audit", DecimalString(a), DecimalString(b)], ' ')) == Directory(Audit(a, b))
  {
    var ws := ["audit", DecimalString(a), DecimalString(b)];
    DecimalIsWord(a);
    DecimalIsWord(b);
    ParseDecimal(a);
    ParseDecimal(b);
    LowerAnyCase("audit", "audit");
    assert Dispatch("audit", ws, Join(ws, ' ')) == Directory(Audit(a, b));
    ParseWords(ws);
  }

  lemma RenderRootHashLatest(head: string)
    requires head in {"root", "root_hash"}
    ensures ParseLine(head) == Directory(RootHash(None))
  {
    LowerAnyCase(head, head);
    assert Join([head], ' ') == head;
    assert Dispatch(head, [head], head) == Directory(RootHash(None));
    ParseWords([head]);
  }

  lemma RenderRootHashAt(head: string, n: U64)
    requires head in {"root", "root_hash"}
    ensures ParseLine(Join([head, DecimalString(n)], ' ')) == Directory(RootHash(Some(n)))
  {
    var ws := [head, DecimalString(n)];
    LowerAnyCase(head, head);
    DecimalIsWord(n);
    ParseDecimal(n);
    assert Dispatch(head, ws, Join(ws, ' ')) == Directory(RootHash(Some(n)));
    ParseWords(ws);
  }

  /** A directory command in the documented syntax parses back to itself. */
  lemma RenderParseDirectory(d: DirectoryCommand)
    requires Renderable(Directory(d))
    ensures ParseLine(Join(Words(d), ' ')) == Directory(d)
  {
    match d
    case Publish(u, v) => RenderPublish(u, v);
    case Lookup(u) => RenderUser("lookup", u);
    case KeyHistory(u) => RenderUser("history", u);
    case Audit(a, b) => RenderAudit(a, b);
    case RootHash(None) => RenderRootHashLatest("root");
    case RootHash(Some(n)) => RenderRootHashAt("root", n);
  }

  /** A shell command written alone, in small letters, is that command. */
  lemma ParseShellWord(v: string)
    requires v in ShellVocabulary
    ensures ParseLine(v) == ShellCommand(v)
  {
    LowerAnyCase(v, v);
    assert Join([v], ' ') == v;
    assert Dispatch(v, [v], v) == ShellCommand(v);
    ParseWords([v]);
  }

  /** Every command a line can ask for is what that line parses to. */
  lemma RenderParse(c: Command)
    requires Renderable(c)
    ensures ParseLine(Render(c)) == c
  {
    if c.Directory? {
      RenderParseDirectory(c.cmd);
    } else if !c.Unknown? {
      var v := Render(c);
      assert v in ShellVocabulary && ShellCommand(v) == c;
      ParseShellWord(v);
    }
  }
}
