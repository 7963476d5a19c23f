/**
 * Where the bot takes its settings from at startup: a JSON configuration file
 * named on the command line, or the environment variables `DISCORD_BOT_TOKEN`
 * and `YTDLP_PATH`. Only the choice between the two is modelled.
 */
module Config {

  /** The settings source: the file at path, or the process environment. */
  datatype Source = ConfigFile(path: string) | Environment

  /**
   * The choice as the code makes it, on the full argument vector (program name
   * first): the file is read only when MORE than two words are present.
   */
  function SourceAsWritten(args: seq<string>): (r: Source)
    ensures r.ConfigFile? <==> |args| > 2
    ensures r.ConfigFile? ==> r.path == args[1]
  {
    if |args| > 2 then ConfigFile(args[1]) else Environment
  }

  /** As written, `dwn config.json` ignores the file it names and reads the environment. */
  lemma LoneArgumentIgnored(path: string)
    ensures SourceAsWritten(["dwn", path]) == Environment
  {
  }

  /** The evident intent: read the file exactly when a first argument names one. */
  function ConfigSource(args: seq<string>): (r: Source)
    ensures r.ConfigFile? <==> |args| >= 2
    ensures r.ConfigFile? ==> r.path == args[1]
  {
    if |args| > 1 then ConfigFile(args[1]) else Environment
  }

  /** The intended choice honours a lone file argument. */
  lemma LoneArgumentHonoured(path: string)
    ensures ConfigSource(["dwn", path]) == ConfigFile(path)
  {
  }

  /** The two differ exactly on a command line with one argument. */
  lemma SourcesDifferOnlyOnOneArgument(args: seq<string>)
    ensures SourceAsWritten(args) != ConfigSource(args) <==> |args| == 2
  {
  }
}
