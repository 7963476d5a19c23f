/**
 * The command listener: how the bot answers one "Download media" interaction.
 *
 * The interaction event is an object whose reply operations append to its
 * response log; the listener is the step-by-step sequence of early returns of
 * the source, run against abstract outcomes for the media probe and for the
 * three process-setup calls of the fetch (stdout pipe, stderr pipe, start).
 */
module Dispatch {
  import UrlPattern
  import Media

  const DownloadCommand := "Download media"
  const NoMediaFound := "No media found"
  const InfoErrorPrefix := "Error while reading media info\n"
  const DownloadErrorPrefix := "Error while downloading media\n"

  /** An attachment body: the live standard-output pipe of the process started with argv. */
  datatype Body = StdoutOf(argv: seq<string>)

  /** One response the bot issues on an interaction. */
  datatype Response =
    | Reply(content: string, ephemeral: bool)   // an immediate message
    | Defer(ephemeral: bool)                    // a deferred acknowledgement
    | FollowupText(content: string)             // a follow-up message with text
    | FollowupFile(name: string, body: Body)    // a follow-up message with one file

  /** Every response but a defer ends the interaction for the user. */
  predicate IsTerminal(r: Response) {
    !r.Defer?
  }

  predicate IsFollowup(r: Response) {
    r.FollowupText? || r.FollowupFile?
  }

  /** The number of terminal responses in t. */
  function Terminals(t: seq<Response>): (n: nat)
    ensures n <= |t|
  {
    if t == [] then 0 else (if IsTerminal(t[0]) then 1 else 0) + Terminals(t[1..])
  }

  /** Terminal responses add up over a log built by appending. */
  lemma {:induction false} TerminalsConcat(a: seq<Response>, b: seq<Response>)
    decreases |a|
    ensures Terminals(a + b) == Terminals(a) + Terminals(b)
  {
    if a == [] {
      assert a + b == b;
    } else {
      assert (a + b)[0] == a[0] && (a + b)[1..] == a[1..] + b;
      TerminalsConcat(a[1..], b);
    }
  }

  /**
   * The shapes the responses to one interaction may take: none; one immediate
   * reply; or a deferred acknowledgement followed by exactly one follow-up.
   */
  predicate Protocol(t: seq<Response>) {
    || t == []
    || (|t| == 1 && t[0].Reply?)
    || (|t| == 2 && t[0].Defer? && IsFollowup(t[1]))
  }

  /** A transcript of that shape issues at most one terminal response, and a follow-up only right after a defer. */
  lemma ProtocolTerminals(t: seq<Response>)
    requires Protocol(t)
    ensures Terminals(t) == if t == [] then 0 else 1
    ensures forall k :: 0 <= k < |t| && IsFollowup(t[k]) ==> 0 < k && t[k - 1].Defer?
  {
  }

  /** How one process-setup call of the fetch ends. */
  datatype Step = Done | Failed(err: string)

  /**
   * What the environment does when the listener runs: how the probe command
   * line ends, and how `StdoutPipe`, `StderrPipe` and `Start` end for the fetch.
   */
  datatype Host = Host(probe: seq<string> -> Media.ProbeRun, stdoutPipe: Step, stderrPipe: Step, start: Step)

  /** The interaction event the platform delivers, with the responses issued on it so far. */
  class InteractionEvent {
    const commandName: string
    const targetContent: string
    var responses: seq<Response>

    constructor (commandName: string, targetContent: string)
      ensures this.commandName == commandName && this.targetContent == targetContent
      ensures responses == []
    {
      this.commandName := commandName;
      this.targetContent := targetContent;
      responses := [];
    }

    /** `event.CreateMessage`. */
    method CreateMessage(content: string, ephemeral: bool)
      modifies this
      ensures responses == old(responses) + [Reply(content, ephemeral)]
    {
      responses := responses + [Reply(content, ephemeral)];
    }

    /** `event.DeferCreateMessage`. */
    method DeferCreateMessage(ephemeral: bool)
      modifies this
      ensures responses == old(responses) + [Defer(ephemeral)]
    {
      responses := responses + [Defer(ephemeral)];
    }

    /** A follow-up message carrying text. */
    method CreateFollowupText(content: string)
      modifies this
      ensures responses == old(responses) + [FollowupText(content)]
    {
      responses := responses + [FollowupText(content)];
    }

    /** A follow-up message carrying one file. */
    method CreateFollowupFile(name: string, body: Body)
      modifies this
      ensures responses == old(responses) + [FollowupFile(name, body)]
    {
      responses := responses + [FollowupFile(name, body)];
    }
  }

  /**
   * The responses `added` are what the listener issues for one interaction:
   * nothing for another command; the ephemeral "No media found" when the
   * message holds no link; otherwise a non-ephemeral defer and then exactly one
   * follow-up, which reports the first failing step or carries the file.
   */
  predicate Answered(commandName: string, content: string, toolPath: string, host: Host, added: seq<Response>) {
    if commandName != DownloadCommand then added == []
    else
      var url := UrlPattern.FindString(content);
      if url == "" then added == [Reply(NoMediaFound, true)]
      else
        var info := Media.GetInfo(toolPath, url, host.probe);
        |added| == 2 && added[0] == Defer(false) &&
        if info.Failure? then added[1] == FollowupText(InfoErrorPrefix + info.error)
        else if host.stdoutPipe.Failed? then added[1] == FollowupText(DownloadErrorPrefix + host.stdoutPipe.err)
        else if host.stderrPipe.Failed? then added[1] == FollowupText(DownloadErrorPrefix + host.stderrPipe.err)
        else if host.start.Failed? then added[1] == FollowupText(DownloadErrorPrefix + host.start.err)
        else added[1] == FollowupFile(Media.AttachmentName(info.value), StdoutOf(Media.FetchArgv(toolPath, url)))
  }

  /**
   * Every answer follows the protocol: exactly one terminal response for the
   * command and none for any other, with the defer first whenever a link was found.
   */
  lemma AnsweredFollowsProtocol(commandName: string, content: string, toolPath: string, host: Host, added: seq<Response>)
    requires Answered(commandName, content, toolPath, host, added)
    ensures Protocol(added)
    ensures Terminals(added) == if commandName == DownloadCommand then 1 else 0
    ensures commandName == DownloadCommand && UrlPattern.FindString(content) != "" ==> added[0] == Defer(false)
  {
    if |added| == 2 {
      assert added[1..][1..] == [];
    }
  }

  /**
   * Over the whole log of an event: a run of the listener that answers as
   * `Answered` says adds exactly one terminal response for the command and
   * none for another name.
   */
  lemma AnsweredAddsOneTerminal(commandName: string, content: string, toolPath: string, host: Host,
                                before: seq<Response>, added: seq<Response>)
    requires Answered(commandName, content, toolPath, host, added)
    ensures Terminals(before + added) == Terminals(before) + if commandName == DownloadCommand then 1 else 0
  {
    AnsweredFollowsProtocol(commandName, content, toolPath, host, added);
    TerminalsConcat(before, added);
  }

  /** `commandListener`, with the tool path passed in rather than read from a global. */
  method CommandListener(event: InteractionEvent, toolPath: string, host: Host)
    modifies event
    ensures |old(event.responses)| <= |event.responses|
    ensures event.responses[..|old(event.responses)|] == old(event.responses)
    ensures Answered(event.commandName, event.targetContent, toolPath, host, event.responses[|old(event.responses)|..])
  {
    ghost var before := event.responses;
    if event.commandName == DownloadCommand {
      var matches := UrlPattern.FindString(event.targetContent);

      if matches == "" {
        event.CreateMessage(NoMediaFound, true);
        return;
      }

      event.DeferCreateMessage(false);

      var mediaInfo: Media.MediaInfo;
      var rawMediaInfo := Media.GetInfo(toolPath, matches, host.probe);
      if rawMediaInfo.Failure? {
        event.CreateFollowupText(InfoErrorPrefix + rawMediaInfo.error);
        return;
      } else {
        var raw := rawMediaInfo.value;
        if raw.ext == "opus" {
          raw := raw.(ext := "ogg");
        }
        mediaInfo := raw;
      }

      var argv := Media.FetchArgv(toolPath, matches);

      if host.stdoutPipe.Failed? {
        event.CreateFollowupText(DownloadErrorPrefix + host.stdoutPipe.err);
        return;
      }

      if host.stderrPipe.Failed? {
        event.CreateFollowupText(DownloadErrorPrefix + host.stderrPipe.err);
        return;
      }

      if host.start.Failed? {
        event.CreateFollowupText(DownloadErrorPrefix + host.start.err);
        return;
      }

      event.CreateFollowupFile(Media.Filename(mediaInfo.displayId, mediaInfo.ext), StdoutOf(argv));
    } else {
      assert event.responses[|before|..] == [];
    }
  }

  /** A message without a link gets the ephemeral "No media found" reply and nothing else. */
  method ExampleNoLinks(toolPath: string, host: Host) {
    var event := new InteractionEvent(DownloadCommand, "no links here");
    UrlPattern.ExampleNoLink();
    CommandListener(event, toolPath, host);
    assert event.responses == [Reply(NoMediaFound, true)];
  }
}
