/** Choosing the `.env*` file to load: the mode, the priority table and the first-match
    search over an existence oracle (`getEnvFilename` in `index.js`). */
module Resolver {

  /** The mode used when `NODE_ENV` is absent. */
  const DefaultEnv: string := "development"

  /** One row of the priority table: a mode and its candidate filenames, most specific first. */
  datatype PriorityEnv = PriorityEnv(env: string, filenames: seq<string>)

  const PriorityEnvs: seq<PriorityEnv> := [
    PriorityEnv("test", [".env.test.local", ".env.local", ".env.test", ".env"]),
    PriorityEnv("production", [".env.production.local", ".env.local", ".env.production", ".env"]),
    PriorityEnv("development", [".env.development.local", ".env.local", ".env.development", ".env"])
  ]

  /** `NODE_ENV` from the process environment, or the default mode when it is absent.
      A present but empty `NODE_ENV` is kept as it is. */
  function ModeOf(processEnv: map<string, string>): string
  {
    if "NODE_ENV" in processEnv then processEnv["NODE_ENV"] else DefaultEnv
  }

  /** What the default mode and an explicit `NODE_ENV` select. */
  lemma ModeChoice(processEnv: map<string, string>)
    ensures "NODE_ENV" !in processEnv ==> ModeOf(processEnv) == "development"
    ensures "NODE_ENV" in processEnv ==> ModeOf(processEnv) == processEnv["NODE_ENV"]
  {
  }

  /** The rows of `table` whose mode is `mode`, their filename lists concatenated in row
      order (`filter` followed by `flatMap`). */
  function CandidatesIn(table: seq<PriorityEnv>, mode: string): seq<string>
    decreases |table|
  {
    if table == [] then []
    else if table[0].env == mode then table[0].filenames + CandidatesIn(table[1..], mode)
    else CandidatesIn(table[1..], mode)
  }

  /** A filename is a candidate exactly when some row of the mode lists it. */
  lemma {:induction false} CandidatesInMembers(table: seq<PriorityEnv>, mode: string, f: string)
    ensures f in CandidatesIn(table, mode) <==> exists e :: e in table && e.env == mode && f in e.filenames
    decreases |table|
  {
    if table != [] {
      CandidatesInMembers(table[1..], mode, f);
      assert forall e :: e in table <==> e == table[0] || e in table[1..];
    }
  }

  /** The ordered candidate list for `mode`. */
  function Candidates(mode: string): seq<string>
  {
    CandidatesIn(PriorityEnvs, mode)
  }

  /** The candidates of each tabled mode, in priority order: mode-local, shared local,
      mode file, base file. */
  lemma TableShape(mode: string)
    requires mode == "test" || mode == "production" || mode == "development"
    ensures Candidates(mode) == [".env." + mode + ".local", ".env.local", ".env." + mode, ".env"]
  {
    var t := PriorityEnvs;
    assert CandidatesIn(t[1..][1..][1..], mode) == [];
    if mode == "test" {
      assert CandidatesIn(t[1..][1..], mode) == [];
      assert CandidatesIn(t[1..], mode) == [];
      assert CandidatesIn(t, mode) == t[0].filenames + [];
      assert ".env." + mode + ".local" == t[0].filenames[0] && ".env." + mode == t[0].filenames[2];
      assert [".env." + mode + ".local", ".env.local", ".env." + mode, ".env"] == t[0].filenames;
    } else if mode == "production" {
      assert CandidatesIn(t[1..][1..], mode) == [];
      assert CandidatesIn(t[1..], mode) == t[1].filenames + [];
      assert CandidatesIn(t, mode) == t[1].filenames;
      assert ".env." + mode + ".local" == t[1].filenames[0] && ".env." + mode == t[1].filenames[2];
      assert [".env." + mode + ".local", ".env.local", ".env." + mode, ".env"] == t[1].filenames;
    } else {
      assert CandidatesIn(t[1..][1..], mode) == t[2].filenames + [];
      assert CandidatesIn(t[1..], mode) == t[2].filenames;
      assert CandidatesIn(t, mode) == t[2].filenames;
      assert ".env." + mode + ".local" == t[2].filenames[0] && ".env." + mode == t[2].filenames[2];
      assert [".env." + mode + ".local", ".env.local", ".env." + mode, ".env"] == t[2].filenames;
    }
  }

  /** A mode outside the table has no candidates. */
  lemma UnknownModeNoCandidates(mode: string)
    requires mode != "test" && mode != "production" && mode != "development"
    ensures Candidates(mode) == []
  {
  }

  /** The result of one existence probe: the file information it resolved with, or a
      rejected promise. */
  datatype Probe = Info(present: bool) | Rejected

  /** The outcome of resolution: the chosen filename, `null`, or the filename whose probe
      rejected (the rejection propagates out of the resolver). */
  datatype Resolution = Found(filename: string) | NotFound | ProbeFailed(filename: string)

  /** Reference definition: the first candidate whose probe does not report absence decides. */
  function FirstMatch(names: seq<string>, probe: string -> Probe): Resolution
    decreases |names|
  {
    if names == [] then NotFound
    else match probe(names[0])
      case Rejected => ProbeFailed(names[0])
      case Info(present) => if present then Found(names[0]) else FirstMatch(names[1..], probe)
  }

  /** Reference definition: the filenames probed, in order, by the search over `names`. */
  function ProbeTrace(names: seq<string>, probe: string -> Probe): seq<string>
    decreases |names|
  {
    if names == [] then []
    else if probe(names[0]) == Info(false) then [names[0]] + ProbeTrace(names[1..], probe)
    else [names[0]]
  }

  /** One step of the search: a candidate reported absent is passed over. */
  lemma FirstMatchStep(names: seq<string>, probe: string -> Probe, i: nat)
    requires i < |names| && probe(names[i]) == Info(false)
    ensures FirstMatch(names[i..], probe) == FirstMatch(names[i + 1..], probe)
    ensures ProbeTrace(names[i..], probe) == [names[i]] + ProbeTrace(names[i + 1..], probe)
  {
  }

  /** Candidates before `i` that all reported absence do not affect the outcome. */
  lemma {:induction false} FirstMatchSkip(names: seq<string>, probe: string -> Probe, i: nat)
    requires i <= |names|
    requires forall j :: 0 <= j < i ==> probe(names[j]) == Info(false)
    ensures FirstMatch(names, probe) == FirstMatch(names[i..], probe)
    decreases i
  {
    if i > 0 {
      FirstMatchSkip(names, probe, i - 1);
      FirstMatchStep(names, probe, i - 1);
    }
  }

  /** The first probe that does not report absence decides the outcome: a present file is
      `Found`, a rejection is `ProbeFailed`, in both cases with that candidate's name. */
  lemma {:induction false} FirstMatchDecided(names: seq<string>, probe: string -> Probe, f: string, p: Probe, r: Resolution)
    requires (p == Info(true) && r == Found(f)) || (p == Rejected && r == ProbeFailed(f))
    ensures FirstMatch(names, probe) == r <==>
      exists i :: 0 <= i < |names| && names[i] == f && probe(names[i]) == p &&
        forall j :: 0 <= j < i ==> probe(names[j]) == Info(false)
    decreases |names|
  {
    if names != [] && FirstMatch(names, probe) == r && probe(names[0]) != p {
      FirstMatchDecided(names[1..], probe, f, p, r);
      var i :| 0 <= i < |names[1..]| && names[1..][i] == f && probe(names[1..][i]) == p &&
        forall j :: 0 <= j < i ==> probe(names[1..][j]) == Info(false);
      assert names[i + 1] == f && probe(names[i + 1]) == p;
      forall j | 0 <= j < i + 1 ensures probe(names[j]) == Info(false) {
        if j > 0 { assert names[j] == names[1..][j - 1]; }
      }
    }
    forall i | 0 <= i < |names| && names[i] == f && probe(names[i]) == p &&
        forall j :: 0 <= j < i ==> probe(names[j]) == Info(false)
      ensures FirstMatch(names, probe) == r
    {
      FirstMatchSkip(names, probe, i);
    }
  }

  /** A filename is chosen exactly when it is a candidate whose probe reported it present
      and every earlier candidate's probe reported it absent. */
  lemma FirstMatchFound(names: seq<string>, probe: string -> Probe, f: string)
    ensures FirstMatch(names, probe) == Found(f) <==>
      exists i :: 0 <= i < |names| && names[i] == f && probe(names[i]) == Info(true) &&
        forall j :: 0 <= j < i ==> probe(names[j]) == Info(false)
  {
    FirstMatchDecided(names, probe, f, Info(true), Found(f));
  }

  /** `null` is returned exactly when every candidate's probe reported it absent. */
  lemma {:induction false} FirstMatchNotFound(names: seq<string>, probe: string -> Probe)
    ensures FirstMatch(names, probe) == NotFound <==>
      forall j :: 0 <= j < |names| ==> probe(names[j]) == Info(false)
    decreases |names|
  {
    if names != [] {
      FirstMatchNotFound(names[1..], probe);
      assert forall j :: 1 <= j < |names| ==> names[j] == names[1..][j - 1];
    }
  }

  /** A probe failure surfaces exactly when it is the first probe that did not report absence. */
  lemma FirstMatchProbeFailed(names: seq<string>, probe: string -> Probe, f: string)
    ensures FirstMatch(names, probe) == ProbeFailed(f) <==>
      exists i :: 0 <= i < |names| && names[i] == f && probe(names[i]) == Rejected &&
        forall j :: 0 <= j < i ==> probe(names[j]) == Info(false)
  {
    FirstMatchDecided(names, probe, f, Rejected, ProbeFailed(f));
  }

  /** Probes are issued in list order and stop at the first one that does not report
      absence: the trace is a prefix of the candidates, every probe but the last reported
      absence, the last one is the outcome's filename, and when nothing was found the whole
      list was probed. */
  lemma {:induction false} ProbeTraceShape(names: seq<string>, probe: string -> Probe)
    ensures ProbeTrace(names, probe) <= names
    ensures forall j :: 0 <= j < |ProbeTrace(names, probe)| - 1 ==> probe(ProbeTrace(names, probe)[j]) == Info(false)
    ensures FirstMatch(names, probe) == NotFound ==> ProbeTrace(names, probe) == names
    ensures FirstMatch(names, probe) != NotFound ==>
      ProbeTrace(names, probe) != [] &&
      ProbeTrace(names, probe)[|ProbeTrace(names, probe)| - 1] == FirstMatch(names, probe).filename
    decreases |names|
  {
    if names != [] {
      ProbeTraceShape(names[1..], probe);
      var t := ProbeTrace(names, probe);
      if probe(names[0]) == Info(false) {
        var t' := ProbeTrace(names[1..], probe);
        assert t == [names[0]] + t';
        assert names == [names[0]] + names[1..];
        assert forall j :: 1 <= j < |t| ==> t[j] == t'[j - 1];
      }
    }
  }

  /** The resolver: probes the candidates of the current mode in order through `probe` and
      returns the first one that exists, `NotFound` when none does, or the probe failure.
      `probed` lists the filenames whose existence was asked, in order. */
  method GetEnvFilename(processEnv: map<string, string>, probe: string -> Probe)
    returns (r: Resolution, probed: seq<string>)
    ensures r == FirstMatch(Candidates(ModeOf(processEnv)), probe)
    ensures probed == ProbeTrace(Candidates(ModeOf(processEnv)), probe)
  {
    var filenames := Candidates(ModeOf(processEnv));
    probed := [];
    var i := 0;
    while i < |filenames|
      invariant 0 <= i <= |filenames|
      invariant FirstMatch(filenames, probe) == FirstMatch(filenames[i..], probe)
      invariant ProbeTrace(filenames, probe) == probed + ProbeTrace(filenames[i..], probe)
    {
      var filename := filenames[i];
      var fileInfo := probe(filename);
      probed := probed + [filename];
      assert filenames[i..] == [filename] + filenames[i + 1..];
      match fileInfo {
        case Rejected =>
          r := ProbeFailed(filename);
          return;
        case Info(present) =>
          if present {
            r := Found(filename);
            return;
          }
      }
      FirstMatchStep(filenames, probe, i);
      i := i + 1;
    }
    r := NotFound;
  }

  /** An unknown mode finds nothing and issues no probe. */
  lemma UnknownModeProbesNothing(processEnv: map<string, string>, probe: string -> Probe)
    requires ModeOf(processEnv) != "test" && ModeOf(processEnv) != "production" && ModeOf(processEnv) != "development"
    ensures FirstMatch(Candidates(ModeOf(processEnv)), probe) == NotFound
    ensures ProbeTrace(Candidates(ModeOf(processEnv)), probe) == []
  {
  }

  /** Without `NODE_ENV`, the development candidates are searched. */
  lemma DefaultModeCandidates(processEnv: map<string, string>)
    requires "NODE_ENV" !in processEnv
    ensures Candidates(ModeOf(processEnv)) ==
      [".env.development.local", ".env.local", ".env.development", ".env"]
  {
  }
}
