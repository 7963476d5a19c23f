/**
 * What the bot does with the media tool (yt-dlp): the two command lines it
 * builds, how it reads the probe's outcome (`GetInfo`), and how it names the
 * file it uploads (the `opus` to `ogg` rule and `<display id>.<extension>`).
 */
module Media {
  import opened Wrappers

  /** The format-sort preference both invocations pass after `-S`. */
  const FormatSort := "res:720,filesize~20M"

  /** The probe command line: print the media's JSON description. */
  function ProbeArgv(toolPath: string, url: string): seq<string> {
    [toolPath, "-J", "-S", FormatSort, url]
  }

  /** The fetch command line: write the media itself to standard output. */
  function FetchArgv(toolPath: string, url: string): seq<string> {
    [toolPath, "-o", "-", "-S", FormatSort, url]
  }

  /** No word of argv at an index in [lo, hi) is `flag`. */
  predicate FlagAbsent(argv: seq<string>, flag: string, lo: nat, hi: int) {
    forall j :: lo <= j < hi && j < |argv| ==> argv[j] != flag
  }

  /** The word that follows the first `flag` among the words between the program and the last word. */
  function OptionValue(argv: seq<string>, flag: string, k: nat := 1): (r: Option<string>)
    decreases |argv| - k
    ensures r.Some? ==> exists j :: && k <= j && j + 2 < |argv| && argv[j] == flag && argv[j + 1] == r.value
                                     && FlagAbsent(argv, flag, k, j)
    ensures r.None? ==> FlagAbsent(argv, flag, k, |argv| - 2)
  {
    if k + 2 >= |argv| then None
    else if argv[k] == flag then Some(argv[k + 1])
    else OptionValue(argv, flag, k + 1)
  }

  /** `flag` is one of the words between the program and the last word. */
  predicate HasFlag(argv: seq<string>, flag: string) {
    exists j :: 1 <= j < |argv| - 1 && argv[j] == flag
  }

  /**
   * The probe runs the configured program with `-J` (print JSON) and the
   * format preference after `-S`, and names the URL last.
   */
  lemma ProbeArgvRoles(toolPath: string, url: string)
    ensures var argv := ProbeArgv(toolPath, url);
      && argv[0] == toolPath && argv[|argv| - 1] == url
      && HasFlag(argv, "-J") && OptionValue(argv, "-S") == Some(FormatSort) && OptionValue(argv, "-o") == None
  {
    var argv := ProbeArgv(toolPath, url);
    assert argv[1] == "-J";
    assert "-J" != "-S" && "-J" != "-o" && "-S" != "-o";
    assert OptionValue(argv, "-S", 2) == Some(FormatSort);
    assert OptionValue(argv, "-o", 3) == None;
    assert OptionValue(argv, "-o", 2) == None;
  }

  /**
   * The fetch runs the same program on the same URL, named last, with the same
   * format preference, but sends the media to standard output (`-o -`) and
   * does not ask for JSON.
   */
  lemma FetchArgvRoles(toolPath: string, url: string)
    ensures var argv := FetchArgv(toolPath, url);
      && argv[0] == toolPath && argv[|argv| - 1] == url
      && !HasFlag(argv, "-J") && OptionValue(argv, "-S") == Some(FormatSort) && OptionValue(argv, "-o") == Some("-")
  {
    var argv := FetchArgv(toolPath, url);
    assert "-o" != "-S" && "-" != "-S" && "-o" != "-J" && "-" != "-J" && "-S" != "-J" && FormatSort != "-J";
    assert OptionValue(argv, "-S", 3) == Some(FormatSort);
    assert OptionValue(argv, "-S", 2) == Some(FormatSort);
  }

  /** The two fields the bot reads from the probe's JSON output. */
  datatype MediaInfo = MediaInfo(ext: string, displayId: string)

  /**
   * The probe's standard output as JSON decoding sees it: not a JSON document
   * at all, or a document in which each of `ext` and `display_id` is either a
   * string or absent (or of another type).
   */
  datatype JsonDoc = Malformed | Document(ext: Option<string>, displayId: Option<string>)

  /** How one run of the probe ends: the tool fails (error text), or it exits 0 with output. */
  datatype ProbeRun = ProbeFailed(err: string) | ProbeSucceeded(output: JsonDoc)

  /**
   * `json.Unmarshal(data, &info)` into a zero MediaInfo with its error ignored:
   * a field the document does not supply stays "", and a malformed document
   * leaves both "".
   */
  function Unmarshal(doc: JsonDoc): (info: MediaInfo)
    ensures doc.Malformed? ==> info == MediaInfo("", "")
    ensures doc.Document? && doc.ext.Some? ==> info.ext == doc.ext.value
    ensures doc.Document? && doc.ext.None? ==> info.ext == ""
    ensures doc.Document? && doc.displayId.Some? ==> info.displayId == doc.displayId.value
    ensures doc.Document? && doc.displayId.None? ==> info.displayId == ""
  {
    match doc
    case Malformed => MediaInfo("", "")
    case Document(ext, id) =>
      MediaInfo(if ext.Some? then ext.value else "", if id.Some? then id.value else "")
  }

  /**
   * `GetInfo(url)`: run the probe command line through `run` (the operating
   * system); a failed run is an error carrying the run's error, and a run that
   * exits 0 always yields a MediaInfo, whatever its output.
   */
  function GetInfo(toolPath: string, url: string, run: seq<string> -> ProbeRun): (r: Result<MediaInfo, string>)
    ensures r.Failure? <==> run(ProbeArgv(toolPath, url)).ProbeFailed?
    ensures r.Failure? ==> r.error == run(ProbeArgv(toolPath, url)).err
    ensures r.Success? ==> r.value == Unmarshal(run(ProbeArgv(toolPath, url)).output)
  {
    match run(ProbeArgv(toolPath, url))
    case ProbeFailed(err) => Failure(err)
    case ProbeSucceeded(output) => Success(Unmarshal(output))
  }

  /** The extension check at the top of the success branch: `opus` becomes `ogg`. */
  function NormaliseExt(ext: string): (r: string)
    ensures r != "opus"
    ensures ext == "opus" ==> r == "ogg"
    ensures ext != "opus" ==> r == ext
  {
    if ext == "opus" then "ogg" else ext
  }

  /** Normalising twice is normalising once. */
  lemma NormaliseIdempotent(ext: string)
    ensures NormaliseExt(NormaliseExt(ext)) == NormaliseExt(ext)
  {
  }

  /** `fmt.Sprintf("%s.%s", displayID, ext)`. */
  function Filename(displayId: string, ext: string): string {
    displayId + "." + ext
  }

  /** The index of the last '.' in name, if any. */
  function LastDot(name: string): (r: Option<nat>)
    ensures r.Some? ==> r.value < |name| && name[r.value] == '.' && '.' !in name[r.value + 1..]
    ensures r.None? ==> '.' !in name
  {
    if |name| == 0 then None
    else if name[|name| - 1] == '.' then Some(|name| - 1)
    else
      var r := LastDot(name[..|name| - 1]);
      assert name == name[..|name| - 1] + [name[|name| - 1]];
      r
  }

  /** The suffix a client reads off a file name: what follows its last '.'. */
  function Suffix(name: string): string {
    match LastDot(name)
    case None => ""
    case Some(k) => name[k + 1..]
  }

  /** The stem: what precedes the last '.'. */
  function Stem(name: string): string {
    match LastDot(name)
    case None => name
    case Some(k) => name[..k]
  }

  /** A file name splits back into its display id and extension when the extension has no '.'. */
  lemma FilenameSplits(displayId: string, ext: string)
    requires '.' !in ext
    ensures Stem(Filename(displayId, ext)) == displayId
    ensures Suffix(Filename(displayId, ext)) == ext
    ensures LastDot(Filename(displayId, ext)) == Some(|displayId|)
  {
    var name := Filename(displayId, ext);
    var k := |displayId|;
    assert name[k] == '.' && name[k + 1..] == ext;
    var d := LastDot(name);
    assert d.Some? by { assert name[k] in name; }
    assert name[..k] == displayId;
  }

  /** The name of the uploaded file for the probe's MediaInfo. */
  function AttachmentName(info: MediaInfo): (name: string)
    ensures '.' !in info.ext ==> LastDot(name) == Some(|info.displayId|)
    ensures '.' !in info.ext ==> Stem(name) == info.displayId && Suffix(name) == NormaliseExt(info.ext)
    ensures info.ext == "opus" ==> name == info.displayId + ".ogg"
  {
    var name := Filename(info.displayId, NormaliseExt(info.ext));
    if '.' !in info.ext then FilenameSplits(info.displayId, NormaliseExt(info.ext)); name else name
  }

  /** A probe printing `{"display_id":"abc123","ext":"opus"}` leads to the file `abc123.ogg`. */
  lemma ExampleOpus(toolPath: string, url: string, run: seq<string> -> ProbeRun)
    requires run(ProbeArgv(toolPath, url)) == ProbeSucceeded(Document(Some("opus"), Some("abc123")))
    ensures GetInfo(toolPath, url, run).Success?
    ensures AttachmentName(GetInfo(toolPath, url, run).value) == "abc123.ogg"
  {
  }
}
