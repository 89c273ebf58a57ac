# Command parser of the akd proof-of-concept shell, in Dafny

The proof-of-concept shell of akd reads one line of operator text at a time. It
turns each line into one `Command`. That `Command` is either a shell command
(`Exit`, `Help`, `Flush`, `Info`), a typed request for the directory host
(`Directory(Publish | Lookup | KeyHistory | Audit | RootHash)`), `InvalidArgs`
(a known head whose arguments were rejected) or `Unknown` (a head outside the
vocabulary). This project models that parser, `poc/src/commands.rs`, and proves
what it does with every line.

Files:

- `text.dfy` (module `Text`): stand-ins for the Rust library calls the parser
  makes. They are `Option`, `u64` (the subset type `U64`), `str::split(' ')`
  (`Split`, with `Join` as its inverse), `str::to_lowercase` on ASCII (`Lower`)
  and `str::parse::<u64>` (`ParseU64`, with `DecimalString` as its inverse).
- `commands.dfy` (module `Commands`): the two datatypes and the parser.
  - `trim_newline` and `Command::parse` work in place on a `&mut String`. They
    are methods of the class `LineBuffer`, whose field `text` is that string.
    Each method is proved against a function: `TrimmedLine` and `ParseLine`.
  - The validators (`ValidatePublish` … `ValidateRootHash`), `handle_dir_cmd`
    (`HandleDirCmd`) and the head `match` (`Dispatch`) are pure matches, so
    they are functions.
- `command_properties.dfy` (module `CommandProperties`): lemmas about whole lines.
  - How line endings, letter case and repeated spaces are treated.
  - What each head gives.
  - Round trip: `Render` writes a command in the syntax that the help menu
    documents, and `RenderParse` proves that the line parses back to that
    command.

Some behaviour of the code is easy to miss, and the model keeps it:

- An empty line splits into one empty token, not into no tokens
  (poc/src/commands.rs:24). Its head `""` is outside the vocabulary, so the
  line gives `Unknown("")` (poc/src/commands.rs:113).
- The epochs are read with `str::parse::<u64>` (poc/src/commands.rs:149,161),
  which accepts a leading `+` and leading zeros (`ParseU64Spellings`).
- Trimming is not idempotent in general (poc/src/commands.rs:171-178): a line
  ending in `\n\n` loses one `\n` per trim. Trimming is idempotent only when
  its result does not itself end in `\n` (`TrimIdempotentIff`).

## Model

| member | source | states |
|---|---|---|
| `Text.Split` | poc/src/commands.rs:24 | splitting on a single space always yields at least one token, and no token contains a space |
| `Text.JoinSplit` | poc/src/commands.rs:24 | joining the tokens with single spaces gives back the line: splitting loses no character |
| `Text.SplitJoin` | poc/src/commands.rs:24 | words without spaces, joined by single spaces, split back into exactly those words, empty ones included |
| `Text.SplitCount` | poc/src/commands.rs:24 | the number of tokens is the number of spaces plus one |
| `Text.LowerAnyCase` | poc/src/commands.rs:31 | any spelling of a lowercase word, with each letter small or capital, lowercases to that word |
| `Text.ParseU64` | poc/src/commands.rs:149 | a successful `u64` parse has a non-empty input that is not a lone `+`, starts with `+` or a digit, and has only digits after its first character; the value fits in 64 bits |
| `Text.ParseDecimal` | poc/src/commands.rs:149 | every `u64` written in decimal, with or without a leading `+`, parses back to itself |
| `Text.ParseOverflow` | poc/src/commands.rs:161 | a decimal number above 2^64-1 does not parse |
| `Text.ParseRejectsMinus` | poc/src/commands.rs:161 | no string with a leading `-` parses, `-0` included |
| `Text.DigitsValueLeadingZero` | poc/src/commands.rs:149 | a zero before a digit string leaves its value unchanged |
| `Text.LeadingZero` | poc/src/commands.rs:149 | a `0` or a `+` before a non-empty digit string does not change what the parser returns, a rejected overflow included |
| `Text.DigitsValueZeros` | poc/src/commands.rs:149 | any number of zeros before a digit string leaves its value unchanged |
| `Text.CanonicalIsDecimal` | poc/src/commands.rs:149 | a digit string without a superfluous leading zero is the canonical decimal spelling of its value |
| `Text.DigitsAreZerosThenDecimal` | poc/src/commands.rs:149 | every digit string is its superfluous zeros followed by the canonical spelling of its value |
| `Text.ParsedIsPaddedDecimal` | poc/src/commands.rs:149 | whatever parses to `n` is an optional `+`, some zeros and the decimal spelling of `n` |
| `Text.PaddedDecimalParses` | poc/src/commands.rs:161 | an optional `+`, any number of zeros and the decimal spelling of a `u64` parse to that value |
| `Text.ParseU64Spellings` | poc/src/commands.rs:149-161 | a string parses to `n` if and only if it is an optional `+`, some zeros and the decimal spelling of `n`: the accepted spellings and their values, in both directions |
| `Commands.TrimmedLine` | poc/src/commands.rs:171-178 | the result is a prefix of the line and at most 2 characters shorter; it equals the line exactly when the line does not end in `\n`; it is 2 shorter exactly when the line ends in `\r\n` |
| `Commands.LineBuffer.Pop` | poc/src/commands.rs:173 | `String::pop`: an empty buffer yields `None` and stays empty; otherwise the buffer loses its last character and that character is returned |
| `Commands.LineBuffer.TrimNewline` | poc/src/commands.rs:171-178 | the buffer is trimmed in place to `TrimmedLine` of its old contents |
| `Commands.LineBuffer.Parse` | poc/src/commands.rs:22-37 | the buffer is left trimmed, and the returned command is `ParseLine` of the old line |
| `Commands.ValidatePublish` | poc/src/commands.rs:117-124 | accepts exactly when there are at least 3 tokens, and then carries tokens 1 and 2 unchanged as user and value |
| `Commands.ValidateLookup` | poc/src/commands.rs:126-133 | accepts exactly when there are at least 2 tokens, and then carries token 1 as the user |
| `Commands.ValidateHistory` | poc/src/commands.rs:135-142 | accepts exactly when there are at least 2 tokens, and then carries token 1 as the user |
| `Commands.ValidateAudit` | poc/src/commands.rs:144-156 | accepts exactly when there are at least 3 tokens and tokens 1 and 2 both parse as `u64`; the result carries those two values in order, with no ordering check |
| `Commands.ValidateRootHash` | poc/src/commands.rs:158-168 | never rejects; the epoch is present exactly when token 1 exists and parses as `u64`, and is then that value |
| `Commands.InvalidArgsMessage` | poc/src/commands.rs:106-110 | the message names the command it was given |
| `Commands.HandleDirCmd` | poc/src/commands.rs:94-115 | the result is `Unknown` exactly when the command is outside the directory vocabulary, and then it echoes the full text; a `Directory` result is the kind of request its head asks for; `root` and `root_hash` are never rejected; a rejected argument list gives `InvalidArgs` only for `publish`, `lookup`, `history` and `audit`, with the message naming the command; nothing else is produced. The payload of each request is stated by `PublishArguments`, `LookupAndHistoryArguments`, `AuditArguments` and `RootHashArguments` |
| `Commands.Dispatch` | poc/src/commands.rs:31-37 | the result is one of `Exit`, `Help`, `Flush`, `Info` exactly when the head is in the shell vocabulary, and then it is the command that head stands for (`ShellCommand`); a directory head is routed to `HandleDirCmd`; the result is `Unknown` exactly when the head is outside the whole vocabulary, and then it echoes the full text |
| `Commands.LineTokens` | poc/src/commands.rs:23-24 | after trimming, a line has one more token than it has spaces, and no token contains a space |
| `Commands.ParseLine` | poc/src/commands.rs:22-37 | a line is `Unknown` exactly when its lowercased head is outside the vocabulary, and the payload is the trimmed line, not lowercased |
| `CommandProperties.TrimRemovesOneEnding` | poc/src/commands.rs:171-178 | appending `\r\n` and trimming gives the line back; appending `\n` alone does so exactly when the line does not end in `\r` |
| `CommandProperties.TrimIdempotentIff` | poc/src/commands.rs:171-178 | trimming twice equals trimming once exactly when the first trim leaves no final `\n`; `"a\n\n"` loses one `\n` per trim |
| `CommandProperties.LineEndingIgnored` | poc/src/commands.rs:22-24 | for a line that does not already end in `\n`, appending `\r\n`, or appending `\n` when the line does not end in `\r`, does not change the parsed command |
| `CommandProperties.TokensOfWords` | poc/src/commands.rs:23-24 | a line of words joined by single spaces, whose last word does not end in `\n`, is unchanged by trimming and tokenises into exactly those words |
| `CommandProperties.ParseWords` | poc/src/commands.rs:22-37 | such a line parses as the dispatch of its lowercased first word, with all the words as the token list |
| `CommandProperties.DoubleSpaceShiftsArguments` | poc/src/commands.rs:24 | `publish` followed by two spaces, `u` and `v` publishes the empty user with value `u`: the empty token shifts the arguments |
| `CommandProperties.ShellCommandInAnyCase` | poc/src/commands.rs:31-35 | a head spelling `exit`/`x`, `help`/`?`, `flush` or `info` in any letter case gives that command, whatever tokens follow |
| `CommandProperties.ShellCommandsExactly` | poc/src/commands.rs:31-35 | `Exit`, `Help`, `Flush` and `Info` each come from exactly their own lowercased heads |
| `CommandProperties.PublishArguments` | poc/src/commands.rs:96 | `publish` with at least 3 tokens publishes tokens 1 and 2 verbatim; with fewer it gives `InvalidArgs` naming `publish`, never `Unknown` |
| `CommandProperties.LookupAndHistoryArguments` | poc/src/commands.rs:97-98 | `lookup` and `history` with at least 2 tokens give `Lookup` and `KeyHistory` of token 1; with fewer they give `InvalidArgs` naming the command |
| `CommandProperties.AuditArguments` | poc/src/commands.rs:99 | `audit` gives `Audit` of the parsed tokens 1 and 2 exactly when there are at least 3 tokens and both parse; otherwise it gives `InvalidArgs` naming `audit` |
| `CommandProperties.RootHashArguments` | poc/src/commands.rs:100 | `root` and `root_hash` always give `RootHash`, with the parsed token 1 when it exists and parses, and `None` otherwise |
| `CommandProperties.AuditRejectsUnparsable` | poc/src/commands.rs:149-154 | `audit x y` is `InvalidArgs` whenever either `x` or `y` fails to parse |
| `CommandProperties.RootIgnoresUnparsable` | poc/src/commands.rs:159-163 | `root x` with an `x` that fails to parse is `RootHash(None)`, not an error: the deliberate asymmetry with `audit` |
| `CommandProperties.HeadCaseInsensitive` | poc/src/commands.rs:31 | two lines that differ only in the letter case of their head parse to the same command, unless that command is `Unknown`, which echoes the line as typed |
| `CommandProperties.RenderParse` | poc/src/commands.rs:52-90 | every command written in the syntax the help menu documents parses back to that command; this covers user names and values without spaces, every pair of `u64` epochs, and any line whose head is unknown. `InvalidArgs` reports a rejected line, so no line is rendered for it |

## Left out

- `print_help_menu` (poc/src/commands.rs:40-91) only prints coloured text. The model keeps only the syntax it documents, as `Render`.
- Commands.InvalidArgsMessage: the word `help` in the message is coloured by the `colored` crate. The model writes it without ANSI colour codes, and proves only that the message names the command.
- Text.Lower: Rust's `to_lowercase` is Unicode-aware. The model lowercases ASCII capitals only. So a head such as `LOOKUP` written with the Kelvin sign (U+212A), which Rust folds to `lookup`, is `Unknown` in the model.
- Text.ParseU64 is a specification of `str::parse::<u64>`, not its digit loop. The library routine is not part of this model.
- Strings are sequences of Unicode scalar values, so `String::pop` removes one `char`. UTF-8 byte layout is not modelled.
- Execution of a `DirectoryCommand` is not part of this model. That is the job of `directory_host`, which is backed by storage and cryptography. `DirectoryCommand` is declared here from its uses in commands.rs.
- The read loop that acquires each line, and process exit on `Exit`, are not part of this model.
