# expo-env, modelled in Dafny

`expo-env` loads one environment-specific `.env*` file into a flat key-value map. Its logic
is all in `index.js`, which has four parts:

- **Resolver** (`getEnvFilename`). It reads the mode from `NODE_ENV`, which defaults to
  `development`. It looks the mode up in a fixed priority table of four filenames. It
  probes them in order and returns the first one that exists, or `null`.
- **Parser** (`parseEnvVars`). It splits the text on `\n`, then each line on `=`. It folds
  the lines, left to right, into a map where a later line overwrites an earlier one.
- **Orchestration** (`loadEnv`). It runs resolve, then read, then parse. A failure inside
  the read-and-parse `try` becomes `{}`. A failing probe happens before the `try`, so it
  propagates to the caller.
- **Lookup** (`getEnv`). It reads a key from the process environment, falling back to a
  default that is `null` unless given. It warns when the result is `null`.

Modules:

- `Wrappers`: `Option`. `None` stands for `null` or `undefined`.
- `TextSplit`: JavaScript's `split` with a one-character separator, and its inverse `Join`.
- `Resolver`: the table, the mode, and the first-match search. The search is a method with
  a loop (`GetEnvFilename`), proved against two reference functions. `FirstMatch` is the
  outcome. `ProbeTrace` is the list of filenames probed. Lemmas characterise both.
- `Parser`: `parseEnvVars` as a left fold over the lines, with lemmas about keys and values.
- `Loader`: `loadEnv`.
- `Lookup`: `getEnv`.

The external collaborators are parameters:

- The process environment is a `map<string, string>`.
- The existence check is an oracle `string -> Probe`. A probe either resolves with
  `Info(present)` or is `Rejected`.
- The read is an oracle `Option<string> -> ReadResult`. It is asked for `None` when
  nothing was found, because the source passes `null` to the read in that case.

The resolver and `loadEnv` also return the list of filenames probed. This makes the order
of probes, and the fact that probing stops at the first hit, visible in their contracts.

Points where the code's behaviour is easy to misread (the model follows the code):

- `const [key, value] = line.split('=')` keeps only the second `=`-separated segment as
  the value, so `A=b=c` gives `A ↦ "b"`, not `"b=c"`. A line with a key but no `=` gives
  that key with an `undefined` value (`None`). A line that is empty or starts with `=`
  contributes nothing.
- `loadEnv` takes no argument. It always resolves the file itself.
- It loads a single file. The test "multiple files with correct priority"
  (`__tests__/index.test.js:85-112`) expects several files merged; the code does not merge.
- A probe that rejects aborts resolution, and `loadEnv` rethrows it. It is not treated as
  "file absent".
- When nothing is found, `loadEnv` still calls the read, with `null`. It returns `{}` only
  because that read fails.

## Model

| member | source | states |
|---|---|---|
| `Resolver.ModeChoice` | index.js:4-12 | the mode is `development` when `NODE_ENV` is absent, and `NODE_ENV`'s value (even empty) when present |
| `Resolver.CandidatesInMembers` | index.js:13-14 | a filename is a candidate exactly when some table row for the mode lists it (filter plus flatMap) |
| `Resolver.TableShape` | index.js:5-9 | each of `test`, `production`, `development` has exactly `.env.<mode>.local`, `.env.local`, `.env.<mode>`, `.env`, in that order |
| `Resolver.UnknownModeNoCandidates` | index.js:13-14 | a mode outside the table has an empty candidate list |
| `Resolver.DefaultModeCandidates` | index.js:4-14 | without `NODE_ENV`, the four development candidates are searched |
| `Resolver.UnknownModeProbesNothing` | index.js:12-23 | an unknown mode returns `null` and issues no probe |
| `Resolver.FirstMatchSkip` | index.js:16-21 | a prefix of candidates that all report absence does not change the outcome |
| `Resolver.FirstMatchDecided` | index.js:16-20 | the first probe that does not report absence decides the outcome: a present file is returned, a rejection escapes, each with that candidate's name and with every earlier candidate reported absent, in both directions |
| `Resolver.FirstMatchFound` | index.js:16-20 | a filename is returned iff it is a candidate that was reported present and all earlier candidates were reported absent |
| `Resolver.FirstMatchNotFound` | index.js:16-23 | `null` is returned iff every candidate was reported absent |
| `Resolver.FirstMatchProbeFailed` | index.js:16-17 | a probe failure escapes iff it is the first probe that did not report absence |
| `Resolver.ProbeTraceShape` | index.js:16-21 | the probes issued are a prefix of the candidates, in order; all but the last reported absence; the last is the outcome's filename; when nothing is found, the whole list is probed |
| `Resolver.GetEnvFilename` | index.js:11-24 | the loop returns the first-match outcome over the mode's candidates and issues exactly the probe trace |
| `TextSplit.Split` | index.js:27-28 | the segments are never empty as a list and contain no separator; the first segment is the text before the first separator, or the whole text |
| `TextSplit.SplitSingle` | index.js:28 | there is one segment iff the separator does not occur |
| `TextSplit.SplitAfter` | index.js:27-28 | splitting `a + sep + b`, with `sep` not in `a`, gives `a` followed by the segments of `b` |
| `TextSplit.SplitJoin` | index.js:27-28 | joining the segments with the separator gives back the text |
| `TextSplit.JoinSplit` | index.js:27-28 | separator-free segments are recovered by splitting their join |
| `Parser.KeyOf` | index.js:28 | the key has no `=`, is a prefix of the line, and is followed by `=` unless it is the whole line |
| `Parser.ValueOf` | index.js:28 | the value is absent iff the line has no `=`; otherwise it is the `=`-free text after the first `=`, ending at the next `=` or the end of the line |
| `Parser.KeyEmpty` | index.js:28-29 | a line's key is empty iff the line is empty or starts with `=` |
| `Parser.FoldKeys` | index.js:27-30 | the fold adds exactly the non-empty keys of the lines to the start map's keys |
| `Parser.FoldUntouched` | index.js:27-30 | a key set by no line keeps its start entry, or stays absent |
| `Parser.FoldLastWins` | index.js:27-30 | a key's value is that of the last line that sets it |
| `Parser.ParseKeys` | index.js:26-31 | the parsed keys are exactly the non-empty keys over all lines |
| `Parser.ParseLastWins` | index.js:26-31 | each parsed key maps to the value of its last line |
| `Parser.EntryLine` | index.js:28 | `KEY=VALUE` with no further `=` has that key and value |
| `Parser.BareLine` | index.js:28 | a line without `=` is its own key, with no value |
| `Parser.TwoLines` | index.js:27 | two newline-terminated lines split into those two lines and a trailing empty line |
| `Parser.ParseTwoEntries` | index.js:26-31 | two `KEY=VALUE` lines parse to their entries, the second overriding the first, and an empty key is dropped |
| `Parser.ParseTestFile` | __tests__/index.test.js:22-26 | `VAR1=value1\nVAR2=value2\n` parses to exactly `{VAR1: "value1", VAR2: "value2"}` |
| `Parser.ParseDuplicate` | index.js:27-30 | `A=1\nA=2\n` parses to `{A: "2"}` |
| `Parser.ParseMissingKey` | index.js:28-29 | `=novalue\nC=3\n` parses to `{C: "3"}` |
| `Parser.ParseSecondSegment` | index.js:28-29 | `A=b=c` parses to `{A: "b"}` |
| `Parser.ParseBareKey` | index.js:28-29 | `FLAG` parses to `{FLAG: undefined}` |
| `Parser.ParseEmpty` | index.js:26-31 | empty text parses to the empty map |
| `Loader.LoadEnv` | index.js:33-44 | probes exactly the probe trace; a probe failure propagates with its filename; otherwise the result is the parse of what was read, or `{}` when the read fails (including the read of `null`) |
| `Lookup.GetEnv` | index.js:46-52 | returns the stored value if the key is present, otherwise the default; warns iff the key is missing and the default is `null` |
| `Lookup.GetEnvWithoutDefault` | __tests__/index.test.js:134-143 | with no default, a missing key gives `null` with a warning, and a present key gives its value without one |

## Left out

- File system I/O (`getInfoAsync`, `readAsStringAsync`) and `async`/`await`: these are the
  probe and read oracles. There is no concurrency, and a hung operation is not modelled.
- Console output (`console.error` of the contents and of the failure, `console.warn`): only
  `getEnv`'s warning is kept, as a boolean.
- lodash `get`'s dotted-path traversal: keys are flat map keys.
- A `fileInfo.exists` that is not a boolean: the probe answers a boolean.
- Non-string default values for `getEnv`: the default is an optional string.
- Which exception escaped the `try`: a rejected read and a parse that throws (for example
  on non-string contents, as in the test at `__tests__/index.test.js:114-118`) are both
  `ReadFailed`.
- `Loader.LoadEnv`: the logging of `Failed to load env file` is not part of its contract.
- Merging several files, and passing a filename to `loadEnv`: the code does neither.
