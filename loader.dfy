/** `loadEnv` in `index.js`: resolve, then read and parse inside a `try` whose `catch`
    turns any failure into the empty map. The resolver runs before the `try`, so a failed
    probe propagates to the caller. */
module Loader {
  import opened Wrappers
  import opened Resolver
  import opened Parser

  /** The outcome of reading a file: its text, or a failure anywhere inside the `try`. */
  datatype ReadResult = Text(contents: string) | ReadFailed

  /** What the caller of `loadEnv` receives: a parsed map, or the probe failure that
      escaped with the filename being probed. */
  datatype LoadResult = Loaded(env: Env) | Threw(filename: string)

  /** Loads the environment file of the current mode. `probe` answers existence checks,
      `read` answers reads; the read is asked for `None` (JavaScript `null`) when no file
      was found, exactly as the source passes `null` along. `probed` lists the existence
      checks issued. */
  method LoadEnv(processEnv: map<string, string>, probe: string -> Probe, read: Option<string> -> ReadResult)
    returns (r: LoadResult, probed: seq<string>)
    ensures probed == ProbeTrace(Candidates(ModeOf(processEnv)), probe)
    ensures r.Threw? <==> FirstMatch(Candidates(ModeOf(processEnv)), probe).ProbeFailed?
    ensures FirstMatch(Candidates(ModeOf(processEnv)), probe).ProbeFailed? ==>
      r == Threw(FirstMatch(Candidates(ModeOf(processEnv)), probe).filename)
    ensures forall f :: FirstMatch(Candidates(ModeOf(processEnv)), probe) == Found(f) ==>
      r == Loaded(if read(Some(f)).Text? then ParseEnvVars(read(Some(f)).contents) else map[])
    ensures FirstMatch(Candidates(ModeOf(processEnv)), probe) == NotFound ==>
      r == Loaded(if read(None).Text? then ParseEnvVars(read(None).contents) else map[])
  {
    var resolution;
    resolution, probed := GetEnvFilename(processEnv, probe);
    var fileName: Option<string>;
    match resolution {
      case ProbeFailed(f) =>
        r := Threw(f);
        return;
      case Found(f) =>
        fileName := Some(f);
      case NotFound =>
        fileName := None;
    }
    match read(fileName)
    case Text(contents) =>
      r := Loaded(ParseEnvVars(contents));
    case ReadFailed =>
      r := Loaded(map[]);
  }
}
