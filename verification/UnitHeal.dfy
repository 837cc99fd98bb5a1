/** The add-only rewriter of a systemd unit file, as text. */
module UnitHeal {
  import opened Wrappers
  import opened Text

  const SERVICE := "[Service]"
  const KILL_MODE := "KillMode="
  const WORK_DIR := "WorkingDirectory="
  const KILL_LINE := "KillMode=process"
  const PRE := "ExecStartPre="
  const MKDIR := "mkdir"

  datatype Change = AddedMkdir | ToleratesMissing | AddedKillMode

  // ---------------------------------------------------------------- lines

  predicate OneLine(s: string) {
    '\n' !in s
  }

  function LineEnd(s: string): (n: nat)
    ensures n <= |s| && OneLine(s[..n])
    ensures n < |s| ==> s[n] == '\n'
  {
    if s == [] || s[0] == '\n' then 0 else
      assert s[..LineEnd(s[1..]) + 1] == [s[0]] + s[1..][..LineEnd(s[1..])];
      LineEnd(s[1..]) + 1
  }

  function WithoutCr(s: string): string {
    if s != [] && s[|s| - 1] == '\r' then s[..|s| - 1] else s
  }

  /** Rust's `str::lines`: a line ends at a newline, and gives up one carriage return before it. */
  function Lines(s: string): seq<string>
    decreases |s|
  {
    if s == [] then [] else
      var n := LineEnd(s);
      if n == |s| then [s] else [WithoutCr(s[..n])] + Lines(s[n + 1..])
  }

  function Unlines(lines: seq<string>): string {
    if lines == [] then "" else Unlines(lines[..|lines| - 1]) + lines[|lines| - 1] + "\n"
  }

  lemma LineEndIs(l: string, rest: string)
    requires OneLine(l)
    ensures LineEnd(l + "\n" + rest) == |l|
  {
    if l != [] {
      assert (l + "\n" + rest)[1..] == l[1..] + "\n" + rest;
      LineEndIs(l[1..], rest);
    }
  }

  function WithoutCrs(lines: seq<string>): seq<string> {
    seq(|lines|, i requires 0 <= i < |lines| => WithoutCr(lines[i]))
  }

  lemma LinesOfLine(l: string, rest: string)
    requires OneLine(l)
    ensures Lines(l + "\n" + rest) == [WithoutCr(l)] + Lines(rest)
  {
    var s := l + "\n" + rest;
    LineEndIs(l, rest);
    assert s[..|l|] == l && s[|l| + 1..] == rest;
  }

  lemma {:induction false} LinesOfAppend(lines: seq<string>, rest: string)
    requires forall i :: 0 <= i < |lines| ==> OneLine(lines[i])
    ensures Lines(Unlines(lines) + rest) == WithoutCrs(lines) + Lines(rest)
  {
    if lines == [] {
      assert "" + rest == rest;
    } else {
      var front, last := lines[..|lines| - 1], lines[|lines| - 1];
      var tail := last + "\n" + rest;
      AppendAssociates(Unlines(front), last, "\n");
      AppendAssociates(Unlines(front), last + "\n", rest);
      LinesOfAppend(front, tail);
      LinesOfLine(last, rest);
      AppendAssociates(WithoutCrs(front), [WithoutCr(last)], Lines(rest));
      WithoutCrsSnoc(lines);
    }
  }

  lemma {:induction false} WithoutCrsSnoc(lines: seq<string>)
    requires lines != []
    ensures WithoutCrs(lines) == WithoutCrs(lines[..|lines| - 1]) + [WithoutCr(lines[|lines| - 1])]
  {
  }

  /** Trimmed lines: all the decisions below look at nothing else. */
  function Views(lines: seq<string>): seq<string> {
    seq(|lines|, i requires 0 <= i < |lines| => Trim(lines[i]))
  }

  lemma TrimIgnoresCr(s: string)
    ensures Trim(WithoutCr(s)) == Trim(s)
  {
    if s != [] && s[|s| - 1] == '\r' {
      assert s == WithoutCr(s) + ['\r'];
      TrimSnoc(WithoutCr(s), '\r');
    }
  }

  /** Writing lines out and reading them back changes no trimmed line. */
  lemma ViewsSurviveText(lines: seq<string>)
    requires forall i :: 0 <= i < |lines| ==> OneLine(lines[i])
    ensures Views(Lines(Unlines(lines))) == Views(lines)
  {
    LinesOfAppend(lines, "");
    assert Unlines(lines) + "" == Unlines(lines);
    assert WithoutCrs(lines) + [] == WithoutCrs(lines);
    forall i | 0 <= i < |lines| ensures Views(WithoutCrs(lines))[i] == Views(lines)[i] {
      TrimIgnoresCr(lines[i]);
    }
  }

  lemma {:induction false} LinesAreOneLine(s: string)
    ensures forall i :: 0 <= i < |Lines(s)| ==> OneLine(Lines(s)[i])
    decreases |s|
  {
    if s != [] && LineEnd(s) < |s| {
      LinesAreOneLine(s[LineEnd(s) + 1..]);
    }
  }

  // ---------------------------------------------------------------- what the rewriter looks at

  /** The value a trimmed line gives `WorkingDirectory`. */
  function WorkDir(t: string): Option<string> {
    if WORK_DIR <= t then Some(Trim(t[|WORK_DIR|..])) else None
  }

  /** The same read off an untrimmed line, as the first scan does. */
  function WorkDirOfLine(line: string): Option<string> {
    WorkDir(TrimStart(line))
  }

  function Absolute(v: Option<string>): Option<string> {
    if v.Some? && v.value != [] && v.value[0] != '-' && v.value[0] == '/' then v else None
  }

  lemma WorkDirOfLineIsView(line: string)
    ensures WorkDirOfLine(line) == WorkDir(Trim(line))
    ensures KILL_MODE <= TrimStart(line) <==> KILL_MODE <= Trim(line)
  {
    PrefixSurvivesTrimEnd(WORK_DIR, TrimStart(line));
    PrefixSurvivesTrimEnd(KILL_MODE, TrimStart(line));
  }

  /** Whether any line sets a kill mode, and the first plain absolute working directory. */
  predicate HasKillMode(views: seq<string>) {
    views != [] && (HasKillMode(views[..|views| - 1]) || KILL_MODE <= views[|views| - 1])
  }

  function FirstWorkDir(views: seq<string>): Option<string> {
    if views == [] then None else
      var front := FirstWorkDir(views[..|views| - 1]);
      if front.Some? then front else Absolute(WorkDir(views[|views| - 1]))
  }

  predicate Contains(s: string, part: string) {
    part <= s || (s != [] && Contains(s[1..], part))
  }

  /** Some line already makes the directory. */
  predicate HasMkdirPre(lines: seq<string>, dir: string) {
    exists i :: 0 <= i < |lines| && MakesDir(lines[i], dir)
  }

  predicate MakesDir(line: string, dir: string) {
    var t := TrimStart(line);
    PRE <= t && Contains(t, MKDIR) && Contains(t, dir)
  }

  /** The state of the section tracker after the first lines: inside `[Service]` or not. */
  predicate InService(views: seq<string>) {
    if views == [] then false else
      var t := views[|views| - 1];
      t == SERVICE || (InService(views[..|views| - 1]) && !IsHeader(t))
  }

  predicate IsHeader(t: string) {
    t != [] && t[0] == '['
  }

  // ---------------------------------------------------------------- the rewrite

  function TolerantLine(dir: string): string { WORK_DIR + "-" + dir }

  function PreLine(dir: string): string { "ExecStartPre=/bin/mkdir -p " + dir }

  /** What the rewrite was asked to do, fixed before the first line is written. */
  datatype Plan = Plan(hasKillMode: bool, workDir: Option<string>, hasMkdirPre: bool)

  function PlanFor(lines: seq<string>): Plan {
    var dir := FirstWorkDir(Views(lines));
    Plan(HasKillMode(Views(lines)), dir, dir.Some? && HasMkdirPre(lines, dir.value))
  }

  predicate Rewrites(plan: Plan, inService: bool, line: string) {
    plan.workDir.Some? && inService && WorkDir(Trim(line)) == plan.workDir
  }

  function Chunk(plan: Plan, inService: bool, line: string): seq<string> {
    if Rewrites(plan, inService, line) then
      [TolerantLine(plan.workDir.value)] + if plan.hasMkdirPre then [] else [PreLine(plan.workDir.value)]
    else [line] + if Trim(line) == SERVICE && !plan.hasKillMode then [KILL_LINE] else []
  }

  function ChunkChanges(plan: Plan, inService: bool, line: string): seq<Change> {
    if Rewrites(plan, inService, line) then
      (if plan.hasMkdirPre then [] else [AddedMkdir]) + [ToleratesMissing]
    else if Trim(line) == SERVICE && !plan.hasKillMode then [AddedKillMode] else []
  }

  function Output(plan: Plan, lines: seq<string>): seq<string> {
    if lines == [] then [] else
      var front := lines[..|lines| - 1];
      Output(plan, front) + Chunk(plan, InService(Views(front)), lines[|lines| - 1])
  }

  function Changes(plan: Plan, lines: seq<string>): seq<Change> {
    if lines == [] then [] else
      var front := lines[..|lines| - 1];
      Changes(plan, front) + ChunkChanges(plan, InService(Views(front)), lines[|lines| - 1])
  }

  /** The healed text and what was changed, or nothing when there is nothing to do. */
  function Healed(content: string): Option<(string, seq<Change>)> {
    var lines := Lines(content);
    var changes := Changes(PlanFor(lines), lines);
    if changes == [] then None else Some((Unlines(Output(PlanFor(lines), lines)), changes))
  }

  lemma ViewsSnoc(lines: seq<string>, n: nat)
    requires n < |lines|
    ensures lines[..n + 1][..n] == lines[..n]
    ensures Views(lines[..n + 1]) == Views(lines[..n]) + [Trim(lines[n])]
    ensures Views(lines[..n + 1])[..n] == Views(lines[..n])
  {
    assert lines[..n + 1] == lines[..n] + [lines[n]];
    assert Views(lines[..n + 1])[..n] == Views(lines[..n]);
  }

  /** One more line: how the scans and the output grow. */
  lemma PlanSnoc(lines: seq<string>, n: nat)
    requires n < |lines|
    ensures HasKillMode(Views(lines[..n + 1])) == (HasKillMode(Views(lines[..n])) || KILL_MODE <= TrimStart(lines[n]))
    ensures FirstWorkDir(Views(lines[..n + 1]))
            == if FirstWorkDir(Views(lines[..n])).Some? then FirstWorkDir(Views(lines[..n]))
               else Absolute(WorkDirOfLine(lines[n]))
  {
    ViewsSnoc(lines, n);
    WorkDirOfLineIsView(lines[n]);
  }

  lemma OutputSnoc(plan: Plan, lines: seq<string>, n: nat)
    requires n < |lines|
    ensures var inService := InService(Views(lines[..n]));
            && Output(plan, lines[..n + 1]) == Output(plan, lines[..n]) + Chunk(plan, inService, lines[n])
            && Unlines(Output(plan, lines[..n + 1])) == Unlines(Output(plan, lines[..n])) + Unlines(Chunk(plan, inService, lines[n]))
            && Changes(plan, lines[..n + 1]) == Changes(plan, lines[..n]) + ChunkChanges(plan, inService, lines[n])
            && InService(Views(lines[..n + 1])) == (Trim(lines[n]) == SERVICE || (inService && !IsHeader(Trim(lines[n]))))
  {
    ViewsSnoc(lines, n);
    UnlinesAppend(Output(plan, lines[..n]), Chunk(plan, InService(Views(lines[..n])), lines[n]));
  }

  /** The first pass over the lines. */
  method MakePlan(lines: seq<string>) returns (plan: Plan)
    ensures plan == PlanFor(lines)
  {
    var hasKillMode := false;
    var workDir: Option<string> := None;
    for n := 0 to |lines|
      invariant hasKillMode == HasKillMode(Views(lines[..n]))
      invariant workDir == FirstWorkDir(Views(lines[..n]))
    {
      PlanSnoc(lines, n);
      hasKillMode := hasKillMode || KILL_MODE <= TrimStart(lines[n]);
      if workDir.None? {
        workDir := Absolute(WorkDirOfLine(lines[n]));
      }
    }
    assert lines[..|lines|] == lines;
    plan := Plan(hasKillMode, workDir, workDir.Some? && HasMkdirPre(lines, workDir.value));
  }

  method HealLine(plan: Plan, inService: bool, line: string) returns (text: string, applied: seq<Change>)
    ensures text == Unlines(Chunk(plan, inService, line))
    ensures applied == ChunkChanges(plan, inService, line)
  {
    var t := Trim(line);
    if plan.workDir.Some? && inService && WorkDir(t) == plan.workDir {
      var dir := plan.workDir.value;
      UnlinesOfTwo(TolerantLine(dir), PreLine(dir));
      text, applied := TolerantLine(dir) + "\n", [];
      if !plan.hasMkdirPre {
        text, applied := text + PreLine(dir) + "\n", [AddedMkdir];
      }
      applied := applied + [ToleratesMissing];
    } else {
      UnlinesOfTwo(line, KILL_LINE);
      text, applied := line + "\n", [];
      if t == SERVICE && !plan.hasKillMode {
        text, applied := text + KILL_LINE + "\n", [AddedKillMode];
      }
    }
  }

  method HealUnitContent(content: string) returns (r: Option<(string, seq<Change>)>)
    ensures r == Healed(content)
  {
    var lines := Lines(content);
    var plan := MakePlan(lines);
    var applied: seq<Change> := [];
    var out := "";
    var inService := false;
    for n := 0 to |lines|
      invariant applied == Changes(plan, lines[..n])
      invariant out == Unlines(Output(plan, lines[..n]))
      invariant inService == InService(Views(lines[..n]))
    {
      OutputSnoc(plan, lines, n);
      var text, changes := HealLine(plan, inService, lines[n]);
      out, applied := out + text, applied + changes;
      if Trim(lines[n]) == SERVICE {
        inService := true;
      } else if IsHeader(Trim(lines[n])) {
        inService := false;
      }
    }
    assert lines[..|lines|] == lines;
    r := if applied == [] then None else Some((out, applied));
  }

  lemma {:induction false} UnlinesAppend(a: seq<string>, b: seq<string>)
    ensures Unlines(a + b) == Unlines(a) + Unlines(b)
  {
    if b == [] {
      assert a + b == a;
    } else {
      assert (a + b)[..|a + b| - 1] == a + b[..|b| - 1];
      UnlinesAppend(a, b[..|b| - 1]);
    }
  }

  lemma UnlinesOfTwo(a: string, b: string)
    ensures Unlines([a]) == a + "\n"
    ensures Unlines([a] + [b]) == a + "\n" + b + "\n"
  {
    assert [a][..0] == [] && ([a] + [b])[..1] == [a];
    assert Unlines([]) + a == a;
  }
}
