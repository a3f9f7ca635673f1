/** `parseEnvVars` in `index.js`: the file text is split on newlines, each line on `=`,
    and the lines are folded, left to right, into a map in which a later line overwrites
    an earlier one with the same key. */
module Parser {
  import opened Wrappers
  import opened TextSplit

  /** A parsed environment. A key maps to `None` when its line has no `=` (the value is
      `undefined` in the source). */
  type Env = map<string, Option<string>>

  /** The key of a line: the text before its first `=`, or the whole line if it has none. */
  function KeyOf(line: string): (k: string)
    ensures '=' !in k
    ensures k <= line
    ensures |k| < |line| ==> line[|k|] == '='
  {
    Split(line, '=')[0]
  }

  /** The value of a line: the second `=`-separated segment, that is, the text after the
      first `=` up to the next `=` or the end of the line; `None` when the line has no `=`. */
  function ValueOf(line: string): (v: Option<string>)
    ensures v.None? <==> '=' !in line
    ensures v.Some? ==> '=' !in v.value && KeyOf(line) + "=" + v.value <= line
    ensures v.Some? && |KeyOf(line)| + 1 + |v.value| < |line| ==> line[|KeyOf(line)| + 1 + |v.value|] == '='
  {
    var parts := Split(line, '=');
    SplitSingle(line, '=');
    if |parts| >= 2 then
      var key := parts[0];
      var rest := line[|key| + 1..];
      assert line == key + ['='] + rest;
      SplitAfter(key, rest, '=');
      Some(parts[1])
    else
      None
  }

  /** A line has an empty key, and so contributes nothing, exactly when it is empty or
      starts with `=`. */
  lemma KeyEmpty(line: string)
    ensures KeyOf(line) == "" <==> line == "" || line[0] == '='
  {
  }

  /** One step of the reduction: a line with a non-empty key sets that key (the object
      spread with a computed key); any other line leaves the map as it is. */
  function AddLine(acc: Env, line: string): Env
  {
    if KeyOf(line) != "" then acc[KeyOf(line) := ValueOf(line)] else acc
  }

  /** The reduction over `lines`, starting from `acc`. */
  function Fold(acc: Env, lines: seq<string>): Env
    decreases |lines|
  {
    if lines == [] then acc else Fold(AddLine(acc, lines[0]), lines[1..])
  }

  /** The lines of a text, as `split('\n')` gives them: a trailing newline leaves an empty
      last line. */
  function Lines(contents: string): seq<string>
  {
    Split(contents, '\n')
  }

  function ParseEnvVars(contents: string): Env
  {
    Fold(map[], Lines(contents))
  }

  /** The non-empty keys of the lines. */
  function LineKeys(lines: seq<string>): set<string>
  {
    set l | l in lines && KeyOf(l) != "" :: KeyOf(l)
  }

  /** The reduction adds exactly the non-empty keys of the lines. */
  lemma {:induction false} FoldKeys(acc: Env, lines: seq<string>)
    ensures Fold(acc, lines).Keys == acc.Keys + LineKeys(lines)
    decreases |lines|
  {
    if lines != [] {
      FoldKeys(AddLine(acc, lines[0]), lines[1..]);
      assert forall l :: l in lines <==> l == lines[0] || l in lines[1..];
      assert LineKeys(lines) == (if KeyOf(lines[0]) != "" then {KeyOf(lines[0])} else {}) + LineKeys(lines[1..]);
    }
  }

  /** A key that no line sets keeps its entry, or its absence, from the start map. */
  lemma {:induction false} FoldUntouched(acc: Env, lines: seq<string>, k: string)
    requires forall j :: 0 <= j < |lines| ==> KeyOf(lines[j]) != k
    ensures k in Fold(acc, lines) <==> k in acc
    ensures k in acc ==> Fold(acc, lines)[k] == acc[k]
    decreases |lines|
  {
    if lines != [] {
      FoldUntouched(AddLine(acc, lines[0]), lines[1..], k);
    }
  }

  /** Last write wins: the value of a key is that of the last line that sets it. */
  lemma {:induction false} FoldLastWins(acc: Env, lines: seq<string>, i: nat)
    requires i < |lines| && KeyOf(lines[i]) != ""
    requires forall j :: i < j < |lines| ==> KeyOf(lines[j]) != KeyOf(lines[i])
    ensures KeyOf(lines[i]) in Fold(acc, lines)
    ensures Fold(acc, lines)[KeyOf(lines[i])] == ValueOf(lines[i])
    decreases |lines|
  {
    if i == 0 {
      FoldUntouched(AddLine(acc, lines[0]), lines[1..], KeyOf(lines[0]));
    } else {
      FoldLastWins(AddLine(acc, lines[0]), lines[1..], i - 1);
    }
  }

  /** The parsed keys are exactly the non-empty keys over all lines. */
  lemma ParseKeys(contents: string)
    ensures ParseEnvVars(contents).Keys == LineKeys(Lines(contents))
  {
    FoldKeys(map[], Lines(contents));
  }

  /** A key's parsed value comes from the last line that sets it. */
  lemma ParseLastWins(contents: string, i: nat)
    requires i < |Lines(contents)| && KeyOf(Lines(contents)[i]) != ""
    requires forall j :: i < j < |Lines(contents)| ==>
      KeyOf(Lines(contents)[j]) != KeyOf(Lines(contents)[i])
    ensures KeyOf(Lines(contents)[i]) in ParseEnvVars(contents)
    ensures ParseEnvVars(contents)[KeyOf(Lines(contents)[i])] == ValueOf(Lines(contents)[i])
  {
    FoldLastWins(map[], Lines(contents), i);
  }

  /** A `KEY=VALUE` line with no further `=` gives that key and value. */
  lemma EntryLine(k: string, v: string)
    requires '=' !in k && '=' !in v
    ensures KeyOf(k + "=" + v) == k && ValueOf(k + "=" + v) == Some(v)
  {
    SplitAfter(k, v, '=');
    SplitNoSep(v, '=');
  }

  /** A line without `=` gives the whole line as key and no value. */
  lemma BareLine(k: string)
    requires '=' !in k
    ensures KeyOf(k) == k && ValueOf(k) == None
  {
  }

  /** The reduction takes the lines one at a time from the front. */
  lemma FoldCons(acc: Env, line: string, rest: seq<string>)
    ensures Fold(acc, [line] + rest) == Fold(AddLine(acc, line), rest)
  {
  }

  /** Two newline-terminated lines. */
  lemma TwoLines(l1: string, l2: string)
    requires '\n' !in l1 && '\n' !in l2
    ensures Lines(l1 + "\n" + l2 + "\n") == [l1, l2, ""]
  {
    assert l1 + "\n" + l2 + "\n" == l1 + ['\n'] + (l2 + ['\n'] + "");
    SplitAfter(l1, l2 + ['\n'] + "", '\n');
    SplitAfter(l2, "", '\n');
  }

  /** Two newline-terminated `KEY=VALUE` lines: both entries, the second winning when the
      keys coincide; a line with an empty key contributes nothing. */
  lemma ParseTwoEntries(k1: string, v1: string, k2: string, v2: string)
    requires '=' !in k1 && '=' !in v1 && '=' !in k2 && '=' !in v2
    requires '\n' !in k1 + v1 && '\n' !in k2 + v2
    ensures ParseEnvVars(k1 + "=" + v1 + "\n" + k2 + "=" + v2 + "\n") ==
      (if k1 != "" then map[k1 := Some(v1)] else map[]) + (if k2 != "" then map[k2 := Some(v2)] else map[])
  {
    var l1, l2 := k1 + "=" + v1, k2 + "=" + v2;
    assert '\n' !in l1 && '\n' !in l2 by {
      assert forall c :: c in l1 ==> c in k1 + v1 || c == '=';
      assert forall c :: c in l2 ==> c in k2 + v2 || c == '=';
    }
    assert k1 + "=" + v1 + "\n" + k2 + "=" + v2 + "\n" == l1 + "\n" + l2 + "\n";
    TwoLines(l1, l2);
    EntryLine(k1, v1);
    EntryLine(k2, v2);
    var m1 := AddLine(map[], l1);
    FoldCons(map[], l1, [l2, ""]);
    FoldCons(m1, l2, [""]);
    FoldCons(AddLine(m1, l2), "", []);
  }

  /** The file of the loader test: `VAR1=value1`, `VAR2=value2` and a trailing newline. */
  lemma ParseTestFile()
    ensures ParseEnvVars("VAR1=value1" + "\n" + "VAR2=value2" + "\n") ==
      map["VAR1" := Some("value1"), "VAR2" := Some("value2")]
  {
    assert "VAR1=value1" + "\n" + "VAR2=value2" + "\n" ==
      "VAR1" + "=" + "value1" + "\n" + "VAR2" + "=" + "value2" + "\n";
    ParseTwoEntries("VAR1", "value1", "VAR2", "value2");
    assert map["VAR1" := Some("value1")] + map["VAR2" := Some("value2")] ==
      map["VAR1" := Some("value1"), "VAR2" := Some("value2")];
  }

  /** A repeated key keeps the value of its last line. */
  lemma ParseDuplicate()
    ensures ParseEnvVars("A=1" + "\n" + "A=2" + "\n") == map["A" := Some("2")]
  {
    assert "A=1" + "\n" + "A=2" + "\n" == "A" + "=" + "1" + "\n" + "A" + "=" + "2" + "\n";
    ParseTwoEntries("A", "1", "A", "2");
    assert map["A" := Some("1")] + map["A" := Some("2")] == map["A" := Some("2")];
  }

  /** A line that starts with `=` contributes nothing. */
  lemma ParseMissingKey()
    ensures ParseEnvVars("=novalue" + "\n" + "C=3" + "\n") == map["C" := Some("3")]
  {
    assert "=novalue" + "\n" + "C=3" + "\n" == "" + "=" + "novalue" + "\n" + "C" + "=" + "3" + "\n";
    ParseTwoEntries("", "novalue", "C", "3");
    assert map[] + map["C" := Some("3")] == map["C" := Some("3")];
  }

  /** Only the segment between the first and the second `=` is kept. */
  lemma ParseSecondSegment()
    ensures ParseEnvVars("A=b=c") == map["A" := Some("b")]
  {
    SplitNoSep("A=b=c", '\n');
    SplitAfter("A", "b=c", '=');
    SplitAfter("b", "c", '=');
    assert "A=b=c" == "A" + ['='] + "b=c";
    assert "b=c" == "b" + ['='] + "c";
  }

  /** A line without `=` sets its key to no value. */
  lemma ParseBareKey()
    ensures ParseEnvVars("FLAG") == map["FLAG" := None]
  {
  }

  /** Empty text parses to the empty map. */
  lemma ParseEmpty()
    ensures ParseEnvVars("") == map[]
  {
  }
}
