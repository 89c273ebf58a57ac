/** The line-command parser of the proof-of-concept shell
    (poc/src/commands.rs): one line of operator text becomes one `Command`. */
module Commands {
  import opened Text

  /** The typed requests the shell forwards to the directory host. Epochs are
      `u64`, so a value that did not parse never reaches `Audit` or `RootHash`. */
  datatype DirectoryCommand =
    | Publish(user: string, value: string)
    | Lookup(user: string)
    | KeyHistory(user: string)
    | Audit(startEpoch: U64, endEpoch: U64)
    | RootHash(epoch: Option<U64>)

  /** The result of parsing one line. `InvalidArgs` is a known command whose
      arguments were rejected; `Unknown` is a head outside the vocabulary. */
  datatype Command =
    | Help
    | Exit
    | Flush
    | Info
    | Directory(cmd: DirectoryCommand)
    | InvalidArgs(message: string)
    | Unknown(text: string)

  /** Heads answered by the shell itself. */
  const ShellVocabulary: set<string> := {"exit", "x", "help", "?", "flush", "info"}

  /** Heads forwarded to the directory host after argument checks. */
  const DirectoryVocabulary: set<string> := {"publish", "lookup", "history", "audit", "root", "root_hash"}

  const Vocabulary: set<string> := ShellVocabulary + DirectoryVocabulary

  /** The shell command a head of the shell vocabulary stands for. */
  function ShellCommand(v: string): Command
    requires v in ShellVocabulary
  {
    if v == "exit" || v == "x" then Exit
    else if v == "help" || v == "?" then Help
    else if v == "flush" then Flush
    else Info
  }

  /** The heads that ask for each kind of directory request. */
  function HeadsOf(d: DirectoryCommand): set<string> {
    match d
    case Publish(_, _) => {"publish"}
    case Lookup(_) => {"lookup"}
    case KeyHistory(_) => {"history"}
    case Audit(_, _) => {"audit"}
    case RootHash(_) => {"root", "root_hash"}
  }

  // ---------------------------------------------------------------------
  // Line endings
  // ---------------------------------------------------------------------

  /** The line with one line ending removed: a final `\n`, together with a
      `\r` directly before it. */
  function TrimmedLine(s: string): (r: string)
    ensures r <= s && |s| - 2 <= |r|
    ensures r == s <==> !EndsWith(s, '\n')
    ensures |r| == |s| - 2 <==> |s| >= 2 && s[|s| - 2..] == "\r\n"
  {
    if EndsWith(s, '\n') then
      var t := s[..|s| - 1];
      if EndsWith(t, '\r') then t[..|t| - 1] else t
    else s
  }

  /** The mutable `String` that `parse` receives by reference. */
  class LineBuffer {
    var text: string

    constructor (line: string)
      ensures text == line
    {
      text := line;
    }

    /** `String::pop`: remove and return the last character, if any. */
    method Pop() returns (c: Option<char>)
      modifies this
      ensures old(text) == [] ==> c == None && text == []
      ensures old(text) != [] ==> c == Some(old(text)[|old(text)| - 1]) && text + [c.value] == old(text)
    {
      if text == [] {
        c := None;
      } else {
        c := Some(text[|text| - 1]);
        text := text[..|text| - 1];
      }
    }

    /** `trim_newline`: pop a final `\n`, and then a `\r` that was before it. */
    method TrimNewline()
      modifies this
      ensures text == TrimmedLine(old(text))
    {
      if EndsWith(text, '\n') {
        var _ := Pop();
        if EndsWith(text, '\r') {
          var _ := Pop();
        }
      }
    }

    /** `Command::parse`: trim the buffer in place, split it on single spaces
        and classify the lowercased head. */
    method Parse() returns (c: Command)
      modifies this
      ensures text == TrimmedLine(old(text))
      ensures c == ParseLine(old(text))
    {
      TrimNewline();
      var parts := Split(text, ' ');
      var command := "";
      if |parts| > 0 {
        command := parts[0];
      }
      c := Dispatch(Lower(command), parts, text);
    }
  }

  // ---------------------------------------------------------------------
  // Argument validators of the directory commands
  // ---------------------------------------------------------------------

  /** `publish user value`: both arguments copied as they are. */
  function ValidatePublish(parts: seq<string>): (r: Option<DirectoryCommand>)
    ensures r.Some? <==> |parts| >= 3
    ensures r.Some? ==> r.value.Publish? && r.value.user == parts[1] && r.value.value == parts[2]
  {
    if |parts| < 3 then None else Some(Publish(parts[1], parts[2]))
  }

  /** `lookup user`. */
  function ValidateLookup(parts: seq<string>): (r: Option<DirectoryCommand>)
    ensures r.Some? <==> |parts| >= 2
    ensures r.Some? ==> r.value.Lookup? && r.value.user == parts[1]
  {
    if |parts| < 2 then None else Some(Lookup(parts[1]))
  }

  /** `history user`. */
  function ValidateHistory(parts: seq<string>): (r: Option<DirectoryCommand>)
    ensures r.Some? <==> |parts| >= 2
    ensures r.Some? ==> r.value.KeyHistory? && r.value.user == parts[1]
  {
    if |parts| < 2 then None else Some(KeyHistory(parts[1]))
  }

  /** `audit start end`: both epochs must parse; their order is not checked. */
  function ValidateAudit(parts: seq<string>): (r: Option<DirectoryCommand>)
    ensures r.Some? <==> |parts| >= 3 && ParseU64(parts[1]).Some? && ParseU64(parts[2]).Some?
    ensures r.Some? ==>
              r.value.Audit?
              && Some(r.value.startEpoch) == ParseU64(parts[1])
              && Some(r.value.endEpoch) == ParseU64(parts[2])
  {
    if |parts| < 3 then None
    else
      match (ParseU64(parts[1]), ParseU64(parts[2]))
      case (Some(a), Some(b)) => Some(Audit(a, b))
      case _ => None
  }

  /** `root [epoch]`: never rejects; an epoch that does not parse is dropped. */
  function ValidateRootHash(parts: seq<string>): (r: Option<DirectoryCommand>)
    ensures r.Some? && r.value.RootHash?
    ensures r.value.epoch.Some? <==> |parts| > 1 && ParseU64(parts[1]).Some?
    ensures r.value.epoch.Some? ==> r.value.epoch == ParseU64(parts[1])
  {
    var epoch := if |parts| > 1 then ParseU64(parts[1]) else None;
    Some(RootHash(epoch))
  }

  // ---------------------------------------------------------------------
  // Classification
  // ---------------------------------------------------------------------

  /** The message of `InvalidArgs`; it names the lowercased command. The
      colouring of the word "help" is not modelled. */
  function InvalidArgsMessage(command: string): (msg: string)
    ensures |msg| >= 8 + |command| && msg[8..8 + |command|] == command
  {
    "Command " + command + " received invalid argments. Check help for syntax"
  }

  /** `Command::handle_dir_cmd`: route a directory head to its validator.
      A rejected argument list is `InvalidArgs`, never `Unknown`. */
  function HandleDirCmd(command: string, parts: seq<string>, fullText: string): (r: Command)
    ensures r.Directory? || r.InvalidArgs? || r.Unknown?
    ensures r.Unknown? <==> command !in DirectoryVocabulary
    ensures r.Unknown? ==> r.text == fullText
    ensures r.Directory? ==> command in HeadsOf(r.cmd)
    ensures r.InvalidArgs? ==> command in {"publish", "lookup", "history", "audit"}
    ensures command == "root" || command == "root_hash" ==> r.Directory?
    ensures r.InvalidArgs? ==> r.message == InvalidArgsMessage(command)
  {
    var dirCmd: Option<Option<DirectoryCommand>> :=
      match command
      case "publish" => Some(ValidatePublish(parts))
      case "lookup" => Some(ValidateLookup(parts))
      case "history" => Some(ValidateHistory(parts))
      case "audit" => Some(ValidateAudit(parts))
      case "root" => Some(ValidateRootHash(parts))
      case "root_hash" => Some(ValidateRootHash(parts))
      case _ => None;
    match dirCmd
    case Some(Some(cmd)) => Directory(cmd)
    case Some(None) => InvalidArgs(InvalidArgsMessage(command))
    case None => Unknown(fullText)
  }

  /** The `match` of `Command::parse` on the lowercased head. */
  function Dispatch(command: string, parts: seq<string>, fullText: string): (r: Command)
    ensures r.Unknown? <==> command !in Vocabulary
    ensures r.Unknown? ==> r.text == fullText
    ensures command in ShellVocabulary <==> r in {Exit, Help, Flush, Info}
    ensures command in ShellVocabulary ==> r == ShellCommand(command)
    ensures command in DirectoryVocabulary ==> r == HandleDirCmd(command, parts, fullText)
  {
    match command
    case "exit" => Exit
    case "x" => Exit
    case "help" => Help
    case "?" => Help
    case "flush" => Flush
    case "info" => Info
    case _ => HandleDirCmd(command, parts, fullText)
  }

  /** `parts.first()`, or the empty string when there is none. */
  function HeadToken(parts: seq<string>): string {
    if |parts| > 0 then parts[0] else ""
  }

  /** The tokens of a line after its line ending is removed. */
  function LineTokens(line: string): (parts: seq<string>)
    ensures |parts| == multiset(TrimmedLine(line))[' '] + 1
    ensures forall i :: 0 <= i < |parts| ==> ' ' !in parts[i]
  {
    SplitCount(TrimmedLine(line), ' ');
    Split(TrimmedLine(line), ' ')
  }

  /** What `Command::parse` returns for a line. */
  function ParseLine(line: string): (r: Command)
    ensures r.Unknown? <==> Lower(LineTokens(line)[0]) !in Vocabulary
    ensures r.Unknown? ==> r.text == TrimmedLine(line)
  {
    var text := TrimmedLine(line);
    var parts := Split(text, ' ');
    Dispatch(Lower(HeadToken(parts)), parts, text)
  }
}
