# dwn: a verified model of the media-download bot's core

`dwn` is a Discord bot with one message command, "Download media". When a user
runs the command on a message, the bot:

1. looks for a link in the message text with one regular expression;
2. asks yt-dlp to describe the media at that link as JSON (the "probe");
3. starts yt-dlp a second time to write the media to standard output (the "fetch");
4. uploads that output stream as a file attachment in a follow-up message.

This project models those steps in Dafny and proves what each one promises.

- `url_pattern.dfy` (module `UrlPattern`) covers the extractor,
  `UrlRegex.FindString` for the pattern `https?://\S+\.+[a-z]{2,6}/[^>\s]*`.
  - A declarative side defines the matches. `ValidParse` splits a match into its
    scheme, `\S+`, `\.+`, `[a-z]{2,6}`, `/` and `[^>\s]*` parts.
  - Go's leftmost-first choice is `Preferred`. At a given start it is the parse
    that is lexicographically greatest: the first one met by a backtracking
    engine whose greedy quantifiers try more repetitions first.
  - The matcher (`MatchAt` and the `Match*` functions it calls) backtracks
    quantifier by quantifier, and its contracts say it returns exactly that parse.
  - `FindString` scans for the leftmost start.
  - Go's `\s` is tab, newline, form feed, carriage return and space.
- `media.dfy` (module `Media`) covers the media-tool side.
  - It builds the two yt-dlp command lines.
  - `GetInfo` reads the probe's outcome: error or MediaInfo.
  - Decoding the JSON is abstracted as `Unmarshal`, whose error is ignored.
  - It applies the `opus` to `ogg` rule and names the file `<display id>.<extension>`.
- `dispatch.dfy` (module `Dispatch`) covers `commandListener`.
  - The interaction event is a class whose reply operations append to a response log.
  - The listener is a method with the source's early returns.
  - Its contract is the predicate `Answered`, which lists the responses for each outcome. `AnsweredFollowsProtocol` proves that every such answer follows the reply protocol.
  - It runs against abstract outcomes of the probe and of `StdoutPipe`,
    `StderrPipe` and `Start`. The tool path is a parameter instead of a global.
- `config.dfy` (module `Config`) covers the startup choice between a
  configuration file and environment variables (see Findings).
- `wrappers.dfy` holds `Option` and `Result`.

Behaviour of the code worth knowing:

- A probe failure is reported with the Go error's text (`err.Error()`,
  main.go:98). For a tool that exits non-zero that is the exit status, not the
  tool's own output.
- A fetch that starts and then fails still produces the one file follow-up, with
  whatever the stream held (main.go:135-143). No error message follows it.
- A failed upload produces no further response, because the upload call's result
  is ignored (main.go:135).
- A lone configuration-file argument is not read (main.go:41, see Findings).

## Model

| member | source | states |
|---|---|---|
| `UrlPattern.ValidParse` | main.go:21 | one way of matching the whole pattern at a start: `http://` or `https://`, then one or more non-space characters, one or more dots, 2 to 6 lower-case letters, `/`, and any run of characters other than `>` and whitespace |
| `UrlPattern.Preferred` | main.go:21 | the parse Go's leftmost-first semantics picks at a start: a valid parse that is greatest in the order in which a backtracking engine with greedy quantifiers meets parses |
| `UrlPattern.RunEnd` | main.go:21 | the end of the longest run of one character class (`\S`, `\.`, `[a-z]`, `[^>\s]`) from a position: every character before it is in the class, the next one is not |
| `UrlPattern.MatchTld` | main.go:21 | `[a-z]{2,6}/[^>\s]*` tried from the most letters down: a result is a valid match with the given earlier parts, and it is the greatest of all such matches whose letters end no later; none is returned only when there is none |
| `UrlPattern.MatchDots` | main.go:21 | `\.+` tried from the most dots down, then the rest: returns the greatest valid match with the given scheme and host end, and none only when none exists |
| `UrlPattern.MatchHost` | main.go:21 | `\S+` tried from the longest run down, then the rest: returns the greatest valid match with the given scheme, and none only when none exists |
| `UrlPattern.MatchAt` | main.go:21 | at one start position, `https://` is tried before `http://`; the result is Go's preferred (leftmost-first) parse at that start, and none means no match starts there |
| `UrlPattern.FindFrom` | main.go:83 | the first start at or after i where a match begins, with the parse preferred there; no index between i and that start begins a match, and none means no index from i on does |
| `UrlPattern.FindString` | main.go:83-85 | the result is "" exactly when no index of the text starts a match; otherwise the result is the preferred match at the leftmost start |
| `UrlPattern.ReportedUrlShape` | main.go:21 | a reported link matches the whole pattern: it starts with `http://` or `https://`, holds no whitespace, has one or more dots, then 2 to 6 lower-case letters and `/`, and no `>` after that `/` |
| `UrlPattern.ReportedIsSubstring` | main.go:83 | a reported link is the substring of the message that starts at the leftmost match |
| `UrlPattern.PreferredUnique` | main.go:21 | at one start exactly one parse is preferred: two preferred parses are equal |
| `UrlPattern.ReportsUnique` | main.go:83 | at most one start and one string satisfy FindString's specification, so the specification determines the result |
| `UrlPattern.PreferredIsLongest` | main.go:21 | for this pattern no match at the same start ends after Go's leftmost-first one, so the leftmost-first and leftmost-longest results coincide |
| `UrlPattern.SchemeUnique` | main.go:21 | the optional `s` is decided by the text, since `https://` and `http://` differ at the fifth character |
| `UrlPattern.ExampleLinkPreferred` | main.go:21 | in "check this out http://example.com/watch?v=1 lol" the preferred parse at the link's start takes host `example`, one dot, `com`, `/` and `watch?v=1`, stopping at the space |
| `UrlPattern.ExampleNoEarlyStart` | main.go:83 | no index of that message before the link's start begins a match |
| `UrlPattern.ExampleMessage` | main.go:83 | "check this out http://example.com/watch?v=1 lol" yields "http://example.com/watch?v=1" |
| `UrlPattern.ExampleNoLink` | main.go:83-85 | "no links here" yields "" |
| `Media.ProbeArgv` | main.go:154-157 | the probe command line: the tool path, `-J`, `-S`, `res:720,filesize~20M` and the URL |
| `Media.FetchArgv` | main.go:109-112 | the fetch command line: the tool path, `-o`, `-`, `-S`, `res:720,filesize~20M` and the URL |
| `Media.ProbeArgvRoles` | main.go:154-157 | the probe command line runs the configured program with `-J` and `-S res:720,filesize~20M`, has no `-o`, and names the URL last |
| `Media.FetchArgvRoles` | main.go:109-112 | the fetch command line runs the same program with `-o -` and the same `-S` preference, has no `-J`, and names the URL last |
| `Media.Unmarshal` | main.go:167 | decoding into a zero MediaInfo with the error ignored: a malformed document gives two empty fields, and a field the document lacks stays "" |
| `Media.GetInfo` | main.go:152-170 | the result is an error exactly when the probe run fails, and then it carries that run's error; a run that exits 0 always yields a MediaInfo, even from malformed output |
| `Media.NormaliseExt` | main.go:102-104 | `opus` becomes `ogg` and every other extension is unchanged, so the result is never `opus` |
| `Media.NormaliseIdempotent` | main.go:102-104 | normalising twice gives the same result as normalising once |
| `Media.Filename` | main.go:139 | `fmt.Sprintf("%s.%s", DisplayID, Ext)`: the display id, a dot and the extension |
| `Media.FilenameSplits` | main.go:139 | `<display id>.<ext>` splits back at its last dot into the display id and the extension when the extension has no dot |
| `Media.AttachmentName` | main.go:139 | when the extension has no dot, the file's last dot is the one right after the display id, so its stem is the display id and its suffix the normalised extension; an `opus` extension gives `<display id>.ogg` |
| `Media.ExampleOpus` | main.go:97-106 | a probe printing `{"display_id":"abc123","ext":"opus"}` yields the file name `abc123.ogg` |
| `Dispatch.InteractionEvent.CreateMessage` | main.go:86-89 | an immediate reply is appended to the event's responses |
| `Dispatch.InteractionEvent.DeferCreateMessage` | main.go:93 | a deferred acknowledgement is appended to the event's responses |
| `Dispatch.InteractionEvent.CreateFollowupText` | main.go:172-180 | a text follow-up is appended to the event's responses |
| `Dispatch.InteractionEvent.CreateFollowupFile` | main.go:135-143 | a one-file follow-up is appended to the event's responses |
| `Dispatch.Answered` | main.go:80-145 | the responses the listener adds for one interaction: none for another command name; the ephemeral "No media found" when the message holds no link; otherwise a non-ephemeral defer and then one follow-up, which reports the first failing step (probe, `StdoutPipe`, `StderrPipe`, `Start`) with its error text or carries the file named from the normalised MediaInfo |
| `Dispatch.CommandListener` | main.go:80-145 | the responses issued before the call are kept, and the new ones are exactly what `Answered` prescribes. Another command name issues no response. With no link, the only response is the ephemeral "No media found". With a link, a non-ephemeral defer comes first and then exactly one follow-up: probe failure gives "Error while reading media info\n" + error; a `StdoutPipe`, `StderrPipe` or `Start` failure gives "Error while downloading media\n" + error; otherwise one file named from the normalised MediaInfo, whose body is the fetch process's stdout |
| `Dispatch.AnsweredFollowsProtocol` | main.go:82-143 | every answer `Answered` allows, and so every run of the listener, follows the protocol: exactly one terminal response for the command and none for another name, with the defer first whenever a link was found |
| `Dispatch.ProtocolTerminals` | main.go:93-143 | a transcript of the allowed shape holds at most one terminal response, and a follow-up comes only right after a defer |
| `Dispatch.TerminalsConcat` | main.go:82-143 | terminal responses add up over a log built by appending |
| `Dispatch.AnsweredAddsOneTerminal` | main.go:82-143 | over the event's whole log, a run of the listener adds exactly one terminal response for the command and none for another name |
| `Config.SourceAsWritten` | main.go:41-53 | as written, the configuration file (the first argument) is read exactly when the argument vector has more than two words; otherwise the environment is read |
| `Config.LoneArgumentIgnored` | main.go:41 | as written, `dwn config.json` reads the environment instead of the file |
| `Config.ConfigSource` | main.go:41-42 | corrected: the file is read exactly when a first argument names it |
| `Config.LoneArgumentHonoured` | main.go:42 | corrected: `dwn config.json` reads `config.json` |
| `Config.SourcesDifferOnlyOnOneArgument` | main.go:41 | the corrected choice differs from the written one only when exactly one argument is given |

## Left out

- `main`'s client construction, command registration (`BotCommands`), gateway connection and signal wait (main.go:25-78): platform I/O and OS signals. Only the choice of settings source is modelled.
- `ReadConfig` (main.go:187-205): file reading and JSON decoding are I/O. It ignores its `path` parameter and reads `os.Args[1]`. Its only caller passes `os.Args[1]`, so the two agree.
- Running the processes: the probe and the fetch's pipes and start are abstract outcomes supplied by the environment (`Host`). The stderr-draining goroutine (main.go:128) is concurrency and is not modelled.
- Streaming the fetch's stdout into the upload (main.go:135-143): foreign library I/O. The body is modelled as the stdout of the fetch command line. The upload's result is ignored by the code, and the model adds no response for it.
- What the platform does with the responses (delivery, expiry of the interaction token, errors of the reply calls): the reply calls' results are ignored by the code and each is recorded as issued.
- `Media.Unmarshal`: JSON decoding is abstracted as a document whose two fields are each present as strings or absent. Go's case-insensitive key matching and partial decoding on type errors are not modelled.
- `Media.GetInfo`: the error is an opaque string. The model does not capture that an exit failure's text is "exit status N".
- `UrlPattern`: text is a sequence of Unicode characters. Go's treatment of invalid UTF-8 bytes in the message is not modelled.

## Findings

| source | as written | input that shows it | evidently intended | confidence | as-written member | corrected member |
|---|---|---|---|---|---|---|
| main.go:41 | `if len(os.Args) > 2` picks the configuration file only when two or more arguments follow the program name, though only `os.Args[1]` is ever read | `os.Args = ["dwn", "config.json"]` reads the environment variables and ignores `config.json` | `len(os.Args) > 1`: read the file whenever a first argument names one | medium, not executed | `Config.LoneArgumentIgnored` | `Config.ConfigSource` |
