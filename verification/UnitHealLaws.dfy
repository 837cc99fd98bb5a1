/** What rewriting a unit file promises: it only adds, it can be undone, and doing it twice is doing it once. */
module UnitHealLaws {
  import opened Wrappers
  import opened Text
  import opened UnitHeal

  // ---------------------------------------------------------------- when there is something to do

  predicate HasService(views: seq<string>) {
    views != [] && (HasService(views[..|views| - 1]) || views[|views| - 1] == SERVICE)
  }

  /** Some line inside `[Service]` gives the working directory this value. */
  predicate InServiceHas(views: seq<string>, v: string) {
    views != [] && var front := views[..|views| - 1];
                   InServiceHas(front, v) || (InService(front) && WorkDir(views[|views| - 1]) == Some(v))
  }

  predicate NeedsHealing(views: seq<string>) {
    || (HasService(views) && !HasKillMode(views))
    || (FirstWorkDir(views).Some? && InServiceHas(views, FirstWorkDir(views).value))
  }

  /** The first absolute working directory among the lines the rewrite leaves alone. */
  function RestFirst(dir: Option<string>, views: seq<string>): Option<string> {
    if views == [] then None else
      var front, t := views[..|views| - 1], views[|views| - 1];
      var first := RestFirst(dir, front);
      if first.Some? then first
      else if dir.Some? && InService(front) && WorkDir(t) == dir then None
      else Absolute(WorkDir(t))
  }

  /** A second, different absolute directory is next in line, and one of its lines is inside `[Service]`. */
  predicate LeavesWork(views: seq<string>) {
    var rest := RestFirst(FirstWorkDir(views), views);
    rest.Some? && rest != FirstWorkDir(views) && InServiceHas(views, rest.value)
  }

  lemma {:induction false} ChangesIff(plan: Plan, lines: seq<string>)
    ensures Changes(plan, lines) != [] <==>
              || (plan.workDir.Some? && InServiceHas(Views(lines), plan.workDir.value))
              || (HasService(Views(lines)) && !plan.hasKillMode)
  {
    if lines != [] {
      var n := |lines| - 1;
      assert lines[..n + 1] == lines;
      ChangesIff(plan, lines[..n]);
      ViewsSnoc(lines, n);
      assert !(WORK_DIR <= SERVICE);
    }
  }

  lemma {:induction false} HealedIff(content: string)
    ensures Healed(content).Some? <==> NeedsHealing(Views(Lines(content)))
  {
    ChangesIff(PlanFor(Lines(content)), Lines(content));
  }

  // ---------------------------------------------------------------- what the scans see in the output

  /** A line that no scan reacts to. */
  predicate Neutral(t: string) {
    !IsHeader(t) && t != SERVICE && !(KILL_MODE <= t) && Absolute(WorkDir(t)).None?
  }

  lemma {:induction false} TolerantLineIsNeutral(dir: string)
    ensures var t := Trim(TolerantLine(dir));
            Neutral(t) && WorkDir(t).Some? && WorkDir(t).value != [] && WorkDir(t).value[0] == '-'
  {
    var l := TolerantLine(dir);
    assert l == WORK_DIR + ("-" + dir) && l[|WORK_DIR|..] == "-" + dir;
    TrimKeepsHead(l);
    TrimKeepsHead("-" + dir);
    WorkDirOfLineIsView(l);
    assert TrimStart(l) == l;
    assert WORK_DIR[0] == 'W' && KILL_MODE[0] == 'K' && SERVICE[0] == '[';
  }

  lemma {:induction false} PreLineIsNeutral(dir: string)
    ensures var t := Trim(PreLine(dir)); Neutral(t) && WorkDir(t).None?
  {
    TrimKeepsHead(PreLine(dir));
    assert PreLine(dir)[0] == 'E' && WORK_DIR[0] == 'W' && KILL_MODE[0] == 'K' && SERVICE[0] == '[';
  }

  lemma {:induction false} KillLineView(l: string)
    requires l == KILL_LINE
    ensures Trim(l) == l && KILL_MODE <= l
    ensures !IsHeader(l) && l != SERVICE && WorkDir(l).None?
  {
    assert l[0] == 'K' && l[|l| - 1] == 's' && WORK_DIR[0] == 'W' && SERVICE[0] == '[';
    AlreadyTrimmed(l);
  }

  /** What the scans make of one more view. */
  lemma {:induction false} ScanSnoc(views: seq<string>, t: string, v: string)
    ensures InService(views + [t]) == (t == SERVICE || (InService(views) && !IsHeader(t)))
    ensures HasService(views + [t]) == (HasService(views) || t == SERVICE)
    ensures HasKillMode(views + [t]) == (HasKillMode(views) || KILL_MODE <= t)
    ensures FirstWorkDir(views + [t]) == if FirstWorkDir(views).Some? then FirstWorkDir(views) else Absolute(WorkDir(t))
    ensures InServiceHas(views + [t], v) == (InServiceHas(views, v) || (InService(views) && WorkDir(t) == Some(v)))
  {
    assert (views + [t])[..|views|] == views;
  }

  lemma {:induction false} ViewsAppend(a: seq<string>, b: seq<string>)
    ensures Views(a + b) == Views(a) + Views(b)
  {
    forall i | 0 <= i < |a + b| ensures Views(a + b)[i] == (Views(a) + Views(b))[i] {
      if i < |a| {
        assert (a + b)[i] == a[i];
      } else {
        assert (a + b)[i] == b[i - |a|];
      }
    }
  }

  lemma {:induction false} ViewsOfTwo(a: string, b: string)
    ensures Views([a]) == [Trim(a)]
    ensures Views([a] + [b]) == [Trim(a)] + [Trim(b)]
  {
    assert [a][0] == a;
    ViewsAppend([a], [b]);
    assert [b][0] == b;
  }

  /** What the scans see in the output, against what they see in the input. */
  predicate SeesAlike(plan: Plan, views: seq<string>, out: seq<string>, v: string) {
    && InService(out) == InService(views)
    && HasService(out) == HasService(views)
    && HasKillMode(out) == (HasKillMode(views) || (HasService(views) && !plan.hasKillMode))
    && FirstWorkDir(out) == RestFirst(plan.workDir, views)
    && (InServiceHas(out, v) <==> InServiceHas(views, v) && plan.workDir != Some(v))
  }

  lemma {:induction false} RewrittenSeesAlike(plan: Plan, views: seq<string>, out: seq<string>, line: string, v: string)
    requires SeesAlike(plan, views, out, v) && Absolute(Some(v)).Some? && Rewrites(plan, InService(views), line)
    ensures SeesAlike(plan, views + [Trim(line)], out + Views(Chunk(plan, InService(views), line)), v)
  {
    var t, dir := Trim(line), plan.workDir.value;
    var tolerant, pre := Trim(TolerantLine(dir)), Trim(PreLine(dir));
    assert (views + [t])[..|views|] == views;
    assert !IsHeader(t) && t != SERVICE && !(KILL_MODE <= t) by {
      assert WORK_DIR <= t && t[0] == 'W' && KILL_MODE[0] == 'K' && SERVICE[0] == '[';
    }
    ScanSnoc(views, t, v);
    TolerantLineIsNeutral(dir);
    ScanSnoc(out, tolerant, v);
    PreLineIsNeutral(dir);
    ScanSnoc(out + [tolerant], pre, v);
    ViewsOfTwo(TolerantLine(dir), PreLine(dir));
    assert out + ([tolerant] + [pre]) == out + [tolerant] + [pre];
    assert [TolerantLine(dir)] + [] == [TolerantLine(dir)];
  }

  lemma {:induction false} KeptSeesAlike(plan: Plan, views: seq<string>, out: seq<string>, line: string, v: string)
    requires SeesAlike(plan, views, out, v) && Absolute(Some(v)).Some? && !Rewrites(plan, InService(views), line)
    ensures SeesAlike(plan, views + [Trim(line)], out + Views(Chunk(plan, InService(views), line)), v)
  {
    var t := Trim(line);
    assert (views + [t])[..|views|] == views;
    ScanSnoc(views, t, v);
    ScanSnoc(out, t, v);
    KillLineView(KILL_LINE);
    ScanSnoc(out + [t], KILL_LINE, v);
    ViewsOfTwo(line, KILL_LINE);
    assert out + ([t] + [KILL_LINE]) == out + [t] + [KILL_LINE];
    assert [line] + [] == [line];
    assert t == SERVICE ==> WorkDir(t).None?;
  }

  lemma {:induction false} ChunkSeesAlike(plan: Plan, views: seq<string>, out: seq<string>, line: string, v: string)
    requires SeesAlike(plan, views, out, v) && Absolute(Some(v)).Some?
    ensures SeesAlike(plan, views + [Trim(line)], out + Views(Chunk(plan, InService(views), line)), v)
  {
    if Rewrites(plan, InService(views), line) {
      RewrittenSeesAlike(plan, views, out, line, v);
    } else {
      KeptSeesAlike(plan, views, out, line, v);
    }
  }

  lemma {:induction false} OutputSeesAlike(plan: Plan, lines: seq<string>, v: string)
    requires Absolute(Some(v)).Some?
    ensures SeesAlike(plan, Views(lines), Views(Output(plan, lines)), v)
  {
    if lines != [] {
      var n := |lines| - 1;
      var front, chunk := lines[..n], Chunk(plan, InService(Views(lines[..n])), lines[n]);
      assert lines[..n + 1] == lines;
      OutputSeesAlike(plan, front, v);
      ViewsSnoc(lines, n);
      ChunkSeesAlike(plan, Views(front), Views(Output(plan, front)), lines[n], v);
      ViewsAppend(Output(plan, front), chunk);
    }
  }

  // ---------------------------------------------------------------- doing it twice

  lemma {:induction false} RestFirstIsAbsolute(dir: Option<string>, views: seq<string>)
    ensures RestFirst(dir, views).Some? ==> Absolute(RestFirst(dir, views)).Some?
  {
    if views != [] {
      RestFirstIsAbsolute(dir, views[..|views| - 1]);
    }
  }

  lemma {:induction false} TrimStaysOneLine(s: string)
    requires OneLine(s)
    ensures OneLine(Trim(s))
  {
    var r := TrimStart(s);
    TrimStartIsSuffix(s);
    TrimEndIsPrefix(r);
    assert forall i :: 0 <= i < |r| ==> r[i] == s[|s| - |r| + i];
    assert forall i :: 0 <= i < |TrimEnd(r)| ==> TrimEnd(r)[i] == r[i];
  }

  lemma {:induction false} WorkDirStaysOneLine(t: string)
    requires OneLine(t)
    ensures WorkDir(t).Some? ==> OneLine(WorkDir(t).value)
  {
    if WORK_DIR <= t {
      TrimStaysOneLine(t[|WORK_DIR|..]);
    }
  }

  lemma {:induction false} FirstWorkDirIsOneLine(lines: seq<string>)
    requires forall i :: 0 <= i < |lines| ==> OneLine(lines[i])
    ensures FirstWorkDir(Views(lines)).Some? ==> OneLine(FirstWorkDir(Views(lines)).value)
  {
    if lines != [] {
      var n := |lines| - 1;
      assert lines[..n + 1] == lines;
      FirstWorkDirIsOneLine(lines[..n]);
      ViewsSnoc(lines, n);
      TrimStaysOneLine(lines[n]);
      WorkDirStaysOneLine(Trim(lines[n]));
    }
  }

  lemma {:induction false} OutputIsOneLine(plan: Plan, lines: seq<string>)
    requires forall i :: 0 <= i < |lines| ==> OneLine(lines[i])
    requires plan.workDir.Some? ==> OneLine(plan.workDir.value)
    ensures forall i :: 0 <= i < |Output(plan, lines)| ==> OneLine(Output(plan, lines)[i])
  {
    if lines != [] {
      var n := |lines| - 1;
      OutputIsOneLine(plan, lines[..n]);
      ChunkIsOneLine(plan, InService(Views(lines[..n])), lines[n]);
    }
  }

  lemma {:induction false} ChunkIsOneLine(plan: Plan, inService: bool, line: string)
    requires OneLine(line) && (plan.workDir.Some? ==> OneLine(plan.workDir.value))
    ensures forall i :: 0 <= i < |Chunk(plan, inService, line)| ==> OneLine(Chunk(plan, inService, line)[i])
  {
    assert OneLine(KILL_LINE);
    assert plan.workDir.Some? ==> OneLine(TolerantLine(plan.workDir.value)) && OneLine(PreLine(plan.workDir.value));
  }

  lemma {:induction false} HealedViews(content: string)
    requires Healed(content).Some?
    ensures Views(Lines(Healed(content).value.0)) == Views(Output(PlanFor(Lines(content)), Lines(content)))
  {
    LinesAreOneLine(content);
    FirstWorkDirIsOneLine(Lines(content));
    OutputIsOneLine(PlanFor(Lines(content)), Lines(content));
    ViewsSurviveText(Output(PlanFor(Lines(content)), Lines(content)));
  }

  /**
   * Idempotence, exactly: healing a healed unit, as text, finds nothing left to do unless the unit gave the
   * service a second, different absolute working directory that is next in line after the one rewritten.
   */
  lemma {:induction false} HealingTwice(content: string)
    requires Healed(content).Some?
    ensures Healed(Healed(content).value.0).None? <==> !LeavesWork(Views(Lines(content)))
  {
    var lines := Lines(content);
    var views, plan := Views(lines), PlanFor(lines);
    var out := Views(Output(plan, lines));
    HealedViews(content);
    HealedIff(content);
    HealedIff(Healed(content).value.0);
    var rest := RestFirst(plan.workDir, views);
    RestFirstIsAbsolute(plan.workDir, views);
    OutputSeesAlike(plan, lines, if rest.Some? then rest.value else "/");
  }

  const TWO_DIRS := SERVICE + "\n" + (WORK_DIR + "/a" + "\n" + (WORK_DIR + "/b" + "\n" + ""))

  /** A unit that needs a second pass: two absolute directories in the service section. */
  lemma {:induction false} TwoDirectoriesNeedTwoPasses()
    ensures Healed(TWO_DIRS).Some? && Healed(Healed(TWO_DIRS).value.0).Some?
  {
    var lines := [SERVICE, PlainLine("/a"), PlainLine("/b")];
    LinesOfTwoDirs(lines);
    TwoDirsLeaveWork(lines);
    HealedIff(TWO_DIRS);
    HealingTwice(TWO_DIRS);
  }

  lemma {:induction false} LinesOfThree(a: string, b: string, c: string)
    requires OneLine(a) && OneLine(b) && OneLine(c)
    ensures Lines(a + "\n" + (b + "\n" + (c + "\n" + ""))) == [WithoutCr(a)] + ([WithoutCr(b)] + ([WithoutCr(c)] + []))
  {
    LinesOfLine(c, "");
    LinesOfLine(b, c + "\n" + "");
    LinesOfLine(a, b + "\n" + (c + "\n" + ""));
  }

  lemma {:induction false} LinesOfTwoDirs(lines: seq<string>)
    requires lines == [SERVICE, PlainLine("/a"), PlainLine("/b")]
    ensures Lines(TWO_DIRS) == lines && Views(lines) == lines
  {
    PlainIsTidy("/a");
    PlainIsTidy("/b");
    LinesOfThree(SERVICE, PlainLine("/a"), PlainLine("/b"));
    assert lines == [SERVICE] + ([PlainLine("/a")] + ([PlainLine("/b")] + []));
    AlreadyTrimmed(SERVICE);
  }

  lemma {:induction false} PlainIsTidy(dir: string)
    requires dir != [] && OneLine(dir) && !IsSpace(dir[|dir| - 1])
    ensures Trim(PlainLine(dir)) == PlainLine(dir) && WithoutCr(PlainLine(dir)) == PlainLine(dir) && OneLine(PlainLine(dir))
  {
    PrefixedEnd(WORK_DIR, dir);
    PlainStaysOneLine(dir);
    AlreadyTrimmed(PlainLine(dir));
  }

  lemma {:induction false} TwoDirsLeaveWork(views: seq<string>)
    requires views == [SERVICE, PlainLine("/a"), PlainLine("/b")]
    ensures NeedsHealing(views) && LeavesWork(views)
  {
    AlreadyTrimmed("/a");
    AlreadyTrimmed("/b");
    var a, b := PlainLine("/a"), PlainLine("/b");
    assert a == WORK_DIR + "/a" && a[|WORK_DIR|..] == "/a" && b == WORK_DIR + "/b" && b[|WORK_DIR|..] == "/b";
    assert !(WORK_DIR <= SERVICE);
    assert [] + [SERVICE] == [SERVICE] && [SERVICE] + [a] == [SERVICE, a] && [SERVICE, a] + [b] == views;
    ScanSnoc([], SERVICE, "/b");
    ScanSnoc([SERVICE], a, "/b");
    ScanSnoc([SERVICE, a], b, "/b");
    ScanSnoc([SERVICE], a, "/a");
    ScanSnoc([SERVICE, a], b, "/a");
    assert [SERVICE][..0] == [] && [SERVICE, a][..1] == [SERVICE] && views[..2] == [SERVICE, a];
    var dir := Some("/a");
    assert FirstWorkDir(views) == dir;
    assert RestFirst(dir, [SERVICE]) == None && RestFirst(dir, [SERVICE, a]) == None;
  }

  predicate OneAbsoluteDir(views: seq<string>) {
    forall i, j :: 0 <= i < |views| && 0 <= j < |views| ==>
      Absolute(WorkDir(views[i])).Some? && Absolute(WorkDir(views[j])).Some? ==> WorkDir(views[i]) == WorkDir(views[j])
  }

  /** In particular a unit that names at most one absolute working directory is healed once and for all. */
  lemma {:induction false} HealingIsIdempotent(content: string)
    requires Healed(content).Some? && OneAbsoluteDir(Views(Lines(content)))
    ensures Healed(Healed(content).value.0).None?
  {
    HealingTwice(content);
    var views := Views(Lines(content));
    FirstIsSome(views);
    RestIsSome(FirstWorkDir(views), views);
  }

  lemma {:induction false} FirstIsSome(views: seq<string>)
    ensures FirstWorkDir(views).Some? ==> exists i :: 0 <= i < |views| && Absolute(WorkDir(views[i])) == FirstWorkDir(views)
    ensures FirstWorkDir(views).None? ==> forall i :: 0 <= i < |views| ==> Absolute(WorkDir(views[i])).None?
  {
    if views != [] {
      FirstIsSome(views[..|views| - 1]);
    }
  }

  lemma {:induction false} RestIsSome(dir: Option<string>, views: seq<string>)
    ensures RestFirst(dir, views).Some? ==> exists i :: 0 <= i < |views| && Absolute(WorkDir(views[i])) == RestFirst(dir, views)
  {
    if views != [] {
      RestIsSome(dir, views[..|views| - 1]);
    }
  }

  // ---------------------------------------------------------------- undoing it

  function PlainLine(dir: string): string { WORK_DIR + dir }

  /** Delete an inserted line, take the "-" back out of a rewritten one, keep any other. */
  function UndoLine(dir: Option<string>, changes: seq<Change>, l: string): seq<string> {
    if AddedKillMode in changes && l == KILL_LINE then []
    else if dir.Some? && AddedMkdir in changes && l == PreLine(dir.value) then []
    else if dir.Some? && l == TolerantLine(dir.value) then [PlainLine(dir.value)]
    else [l]
  }

  function Undone(dir: Option<string>, changes: seq<Change>, out: seq<string>): seq<string> {
    if out == [] then [] else Undone(dir, changes, out[..|out| - 1]) + UndoLine(dir, changes, out[|out| - 1])
  }

  /** The original with its working-directory lines in canonical spacing, and any line already tolerant made plain. */
  function Canonical(plan: Plan, lines: seq<string>): (r: seq<string>)
    ensures |r| == |lines|
  {
    if lines == [] then [] else
      var front, l := lines[..|lines| - 1], lines[|lines| - 1];
      Canonical(plan, front) + [CanonicalLine(plan, InService(Views(front)), l)]
  }

  lemma {:induction false} UndoneAppend(dir: Option<string>, changes: seq<Change>, a: seq<string>, b: seq<string>)
    ensures Undone(dir, changes, a + b) == Undone(dir, changes, a) + Undone(dir, changes, b)
  {
    if b == [] {
      assert a + b == a;
    } else {
      assert (a + b)[..|a + b| - 1] == a + b[..|b| - 1];
      UndoneAppend(dir, changes, a, b[..|b| - 1]);
    }
  }

  /** No original line looks like one of those the changes say were inserted. */
  predicate InsertionsAreNew(plan: Plan, changes: seq<Change>, lines: seq<string>) {
    forall i :: 0 <= i < |lines| ==>
      && (AddedKillMode in changes ==> lines[i] != KILL_LINE)
      && (plan.workDir.Some? && AddedMkdir in changes ==> lines[i] != PreLine(plan.workDir.value))
  }

  lemma {:induction false} UndoneOfTwo(dir: Option<string>, changes: seq<Change>, a: string, b: string)
    ensures Undone(dir, changes, [a]) == UndoLine(dir, changes, a)
    ensures Undone(dir, changes, [a] + [b]) == UndoLine(dir, changes, a) + UndoLine(dir, changes, b)
  {
    assert [a][..0] == [] && [b][..0] == [];
    assert [] + UndoLine(dir, changes, a) == UndoLine(dir, changes, a);
    assert [] + UndoLine(dir, changes, b) == UndoLine(dir, changes, b);
    UndoneAppend(dir, changes, [a], [b]);
  }

  /** The three kinds of line the rewriter writes start differently. */
  lemma {:induction false} WrittenLinesDiffer(dir: string)
    ensures TolerantLine(dir) != KILL_LINE && TolerantLine(dir) != PreLine(dir) && PreLine(dir) != KILL_LINE
  {
    assert TolerantLine(dir)[0] == 'W' && PreLine(dir)[0] == 'E' && KILL_LINE[0] == 'K';
  }

  function CanonicalLine(plan: Plan, inService: bool, l: string): string {
    if Rewrites(plan, inService, l) || (plan.workDir.Some? && l == TolerantLine(plan.workDir.value))
    then PlainLine(plan.workDir.value) else l
  }

  lemma {:induction false} UndoneRewritten(plan: Plan, inService: bool, l: string, changes: seq<Change>)
    requires Rewrites(plan, inService, l)
    requires !plan.hasMkdirPre ==> AddedMkdir in changes
    ensures Undone(plan.workDir, changes, Chunk(plan, inService, l)) == [PlainLine(plan.workDir.value)]
  {
    var d := plan.workDir.value;
    WrittenLinesDiffer(d);
    UndoneOfTwo(plan.workDir, changes, TolerantLine(d), PreLine(d));
    assert [TolerantLine(d)] + [] == [TolerantLine(d)];
  }

  lemma {:induction false} UndoneKept(plan: Plan, inService: bool, l: string, changes: seq<Change>)
    requires !Rewrites(plan, inService, l)
    requires AddedKillMode in changes ==> l != KILL_LINE
    requires plan.workDir.Some? && AddedMkdir in changes ==> l != PreLine(plan.workDir.value)
    requires Trim(l) == SERVICE && !plan.hasKillMode ==> AddedKillMode in changes
    ensures Undone(plan.workDir, changes, Chunk(plan, inService, l)) == [CanonicalLine(plan, inService, l)]
  {
    UndoneOfTwo(plan.workDir, changes, l, KILL_LINE);
    assert [l] + [] == [l];
  }

  lemma {:induction false} UndoneChunk(plan: Plan, inService: bool, l: string, changes: seq<Change>)
    requires AddedKillMode in changes ==> l != KILL_LINE
    requires plan.workDir.Some? && AddedMkdir in changes ==> l != PreLine(plan.workDir.value)
    requires forall c :: c in ChunkChanges(plan, inService, l) ==> c in changes
    ensures Undone(plan.workDir, changes, Chunk(plan, inService, l)) == [CanonicalLine(plan, inService, l)]
  {
    var made := ChunkChanges(plan, inService, l);
    if Rewrites(plan, inService, l) {
      assert !plan.hasMkdirPre ==> made[0] == AddedMkdir;
      UndoneRewritten(plan, inService, l, changes);
    } else {
      assert Trim(l) == SERVICE && !plan.hasKillMode ==> made[0] == AddedKillMode;
      UndoneKept(plan, inService, l, changes);
    }
  }

  lemma {:induction false} UndoneOutput(plan: Plan, lines: seq<string>, changes: seq<Change>)
    requires InsertionsAreNew(plan, changes, lines)
    requires forall c :: c in Changes(plan, lines) ==> c in changes
    ensures Undone(plan.workDir, changes, Output(plan, lines)) == Canonical(plan, lines)
  {
    if lines != [] {
      var n := |lines| - 1;
      var front := lines[..n];
      var inService := InService(Views(front));
      UndoneOutput(plan, front, changes);
      UndoneChunk(plan, inService, lines[n], changes);
      UndoneAppend(plan.workDir, changes, Output(plan, front), Chunk(plan, inService, lines[n]));
    }
  }

  /** What the plan lets in: the changes recorded only happen when nothing of the kind was there. */
  lemma {:induction false} ChangesFollowPlan(plan: Plan, lines: seq<string>)
    ensures AddedKillMode in Changes(plan, lines) ==> !plan.hasKillMode
    ensures AddedMkdir in Changes(plan, lines) ==> plan.workDir.Some? && !plan.hasMkdirPre
  {
    if lines != [] {
      ChangesFollowPlan(plan, lines[..|lines| - 1]);
    }
  }

  lemma {:induction false} KillModeSeen(lines: seq<string>, i: nat)
    requires i < |lines| && lines[i] == KILL_LINE
    ensures HasKillMode(Views(lines))
  {
    var n := |lines| - 1;
    assert lines[..n + 1] == lines;
    WorkDirOfLineIsView(lines[n]);
    PlanSnoc(lines, n);
    if i < n {
      assert lines[..n][i] == lines[i];
      KillModeSeen(lines[..n], i);
    } else {
      KillLineView(lines[n]);
    }
  }

  lemma {:induction false} ContainsAfter(before: string, part: string, after: string)
    ensures Contains(before + part + after, part)
  {
    if before == [] {
      assert before + part + after == part + after;
    } else {
      assert (before + part + after)[1..] == before[1..] + part + after;
      ContainsAfter(before[1..], part, after);
    }
  }

  // ---------------------------------------------------------------- carriage returns

  lemma {:induction false} FirstWorkDirEndsPlain(views: seq<string>)
    ensures FirstWorkDir(views).Some? ==>
              var d := FirstWorkDir(views).value; d != [] && d[|d| - 1] != '\r'
  {
    if views != [] {
      var t := views[|views| - 1];
      FirstWorkDirEndsPlain(views[..|views| - 1]);
      if WORK_DIR <= t {
        TrimEndIsPrefix(TrimStart(t[|WORK_DIR|..]));
      }
    }
  }

  lemma {:induction false} PrefixedEnd(p: string, s: string)
    requires s != []
    ensures (p + s)[|p + s| - 1] == s[|s| - 1]
  {
  }

  /** What the rewriter writes of its own ends in no carriage return. */
  lemma {:induction false} WrittenLinesEndPlain(dir: string)
    requires dir != [] && dir[|dir| - 1] != '\r'
    ensures WithoutCr(TolerantLine(dir)) == TolerantLine(dir) && WithoutCr(PreLine(dir)) == PreLine(dir)
    ensures WithoutCr(PlainLine(dir)) == PlainLine(dir) && WithoutCr(KILL_LINE) == KILL_LINE
  {
    PrefixedEnd(WORK_DIR, dir);
    PrefixedEnd(WORK_DIR + "-", dir);
    PrefixedEnd("ExecStartPre=/bin/mkdir -p ", dir);
  }

  lemma {:induction false} WithoutCrsAppend(a: seq<string>, b: seq<string>)
    ensures WithoutCrs(a + b) == WithoutCrs(a) + WithoutCrs(b)
  {
  }

  lemma {:induction false} ViewsIgnoreCrs(lines: seq<string>)
    ensures Views(WithoutCrs(lines)) == Views(lines)
  {
    forall i | 0 <= i < |lines| ensures Views(WithoutCrs(lines))[i] == Views(lines)[i] {
      TrimIgnoresCr(lines[i]);
    }
  }

  predicate DirEndsPlain(plan: Plan) {
    plan.workDir.Some? ==> plan.workDir.value != [] && plan.workDir.value[|plan.workDir.value| - 1] != '\r'
  }

  lemma {:induction false} ChunkWithoutCrs(plan: Plan, inService: bool, line: string)
    requires DirEndsPlain(plan)
    ensures WithoutCrs(Chunk(plan, inService, line)) == Chunk(plan, inService, WithoutCr(line))
    ensures ChunkChanges(plan, inService, line) == ChunkChanges(plan, inService, WithoutCr(line))
  {
    TrimIgnoresCr(line);
    if plan.workDir.Some? {
      WrittenLinesEndPlain(plan.workDir.value);
    }
    assert WithoutCr(KILL_LINE) == KILL_LINE;
  }

  /** Rewriting lines and dropping carriage returns can be done in either order. */
  lemma {:induction false} OutputWithoutCrs(plan: Plan, lines: seq<string>)
    requires DirEndsPlain(plan)
    ensures WithoutCrs(Output(plan, lines)) == Output(plan, WithoutCrs(lines))
    ensures Changes(plan, lines) == Changes(plan, WithoutCrs(lines))
  {
    if lines != [] {
      var n := |lines| - 1;
      var front, inService := lines[..n], InService(Views(lines[..n]));
      OutputWithoutCrs(plan, front);
      ViewsIgnoreCrs(front);
      ChunkWithoutCrs(plan, inService, lines[n]);
      WithoutCrsAppend(Output(plan, front), Chunk(plan, inService, lines[n]));
      assert WithoutCrs(lines)[..n] == WithoutCrs(front) && WithoutCrs(lines)[n] == WithoutCr(lines[n]);
    }
  }

  /** Reading back what was written: the output lines, each without the carriage return it may have ended in. */
  lemma {:induction false} LinesOfHealed(content: string)
    ensures var lines := Lines(content);
            Lines(Unlines(Output(PlanFor(lines), lines))) == Output(PlanFor(lines), WithoutCrs(lines))
  {
    var lines := Lines(content);
    var plan := PlanFor(lines);
    var out := Output(plan, lines);
    LinesAreOneLine(content);
    FirstWorkDirIsOneLine(lines);
    OutputIsOneLine(plan, lines);
    LinesOfAppend(out, "");
    assert Unlines(out) + "" == Unlines(out) && WithoutCrs(out) + [] == WithoutCrs(out);
    FirstWorkDirEndsPlain(Views(lines));
    OutputWithoutCrs(plan, lines);
  }

  lemma {:induction false} PreLineWithCrMakesDir(l: string, dir: string)
    requires WithoutCr(l) == PreLine(dir)
    ensures MakesDir(l, dir)
  {
    var end := l[|PreLine(dir)|..];
    assert l == PreLine(dir) + end && !IsSpace(l[0]);
    assert l == "ExecStartPre=/bin/" + MKDIR + (" -p " + dir + end);
    ContainsAfter("ExecStartPre=/bin/", MKDIR, " -p " + dir + end);
    assert l == "ExecStartPre=/bin/mkdir -p " + dir + end;
    ContainsAfter("ExecStartPre=/bin/mkdir -p ", dir, end);
  }

  /** No line of the unit looks like one the rewriter says it inserted, with or without a carriage return. */
  lemma {:induction false} NoneInsertedBefore(lines: seq<string>)
    ensures InsertionsAreNew(PlanFor(lines), Changes(PlanFor(lines), lines), WithoutCrs(lines))
  {
    var plan, bare := PlanFor(lines), WithoutCrs(lines);
    var changes := Changes(plan, lines);
    ChangesFollowPlan(plan, lines);
    ViewsIgnoreCrs(lines);
    forall i | 0 <= i < |bare|
      ensures AddedKillMode in changes ==> bare[i] != KILL_LINE
      ensures plan.workDir.Some? && AddedMkdir in changes ==> bare[i] != PreLine(plan.workDir.value)
    {
      if bare[i] == KILL_LINE {
        KillModeSeen(bare, i);
      }
      if plan.workDir.Some? && bare[i] == PreLine(plan.workDir.value) {
        PreLineWithCrMakesDir(lines[i], plan.workDir.value);
      }
    }
  }

  // ---------------------------------------------------------------- what the undo gives back

  /**
   * Add-only, from text to text: deleting the inserted lines and the added "-" from the lines of the healed text
   * gives back the original lines in order, without carriage returns and the rewritten ones in canonical spacing.
   */
  lemma {:induction false} UndoGivesBackTheUnit(content: string)
    requires Healed(content).Some?
    ensures var (healed, changes) := Healed(content).value;
            var lines := Lines(content);
            Undone(PlanFor(lines).workDir, changes, Lines(healed)) == Canonical(PlanFor(lines), WithoutCrs(lines))
  {
    UndoneLines(content);
  }

  lemma {:induction false} UndoneLines(content: string)
    ensures var lines := Lines(content);
            var plan := PlanFor(lines);
            Undone(plan.workDir, Changes(plan, lines), Lines(Unlines(Output(plan, lines)))) == Canonical(plan, WithoutCrs(lines))
  {
    var lines := Lines(content);
    var plan := PlanFor(lines);
    LinesOfHealed(content);
    FirstWorkDirEndsPlain(Views(lines));
    OutputWithoutCrs(plan, lines);
    NoneInsertedBefore(lines);
    UndoneOutput(plan, WithoutCrs(lines), Changes(plan, lines));
  }

  /** The lines the undo can restore: spaced as the rewriter writes, and none of them tolerant already. */
  predicate Restorable(plan: Plan, lines: seq<string>) {
    lines == [] ||
    var front, l := lines[..|lines| - 1], lines[|lines| - 1];
    && Restorable(plan, front)
    && (plan.workDir.Some? ==>
          && (Rewrites(plan, InService(Views(front)), l) ==> l == PlainLine(plan.workDir.value))
          && l != TolerantLine(plan.workDir.value))
  }

  /** Every line ends in a newline of its own, and none in a carriage return before it. */
  predicate PlainNewlines(s: string) {
    && (s == [] || s[|s| - 1] == '\n')
    && forall i :: 0 <= i < |s| - 1 ==> !(s[i] == '\r' && s[i + 1] == '\n')
  }

  /**
   * And the text byte for byte, exactly when the unit spaces those lines as the rewriter does, holds no tolerant
   * twin, and ends every line in a plain newline.
   */
  lemma {:induction false} UndoIsExactIff(content: string)
    requires Healed(content).Some?
    ensures var (healed, changes) := Healed(content).value;
            var lines := Lines(content);
            Unlines(Undone(PlanFor(lines).workDir, changes, Lines(healed))) == content
            <==> Restorable(PlanFor(lines), lines) && PlainNewlines(content)
  {
    var lines := Lines(content);
    var plan := PlanFor(lines);
    UndoneLines(content);
    PlainNewlinesIff(content);
    CanonicalIff(plan, lines);
    if Unlines(Canonical(plan, WithoutCrs(lines))) == content {
      ExactMeansPlain(content);
    } else if content == Unlines(lines) {
      PlainHasNoCrs(content);
    }
  }

  /** A healed unit that comes back one byte short: its only line ends in a carriage return and a newline. */
  lemma {:induction false} CarriageReturnIsLost()
    ensures var content := SERVICE + "\r" + "\n";
            && Healed(content).Some? && !PlainNewlines(content)
            && Unlines(Undone(PlanFor(Lines(content)).workDir, Healed(content).value.1, Lines(Healed(content).value.0))) != content
  {
    var line, content := SERVICE + "\r", SERVICE + "\r" + "\n";
    assert content == line + "\n" + "";
    LinesOfLine(line, "");
    assert WithoutCr(line) == SERVICE;
    assert Lines(content) == [SERVICE];
    AlreadyTrimmed(SERVICE);
    assert Views([SERVICE]) == [SERVICE] && [SERVICE][..0] == [];
    assert HasService([SERVICE]) && !HasKillMode([SERVICE]);
    HealedIff(content);
    assert content[|SERVICE|] == '\r' && content[|SERVICE| + 1] == '\n';
    UndoIsExactIff(content);
  }

  lemma {:induction false} PlainHasNoCrs(content: string)
    requires content == Unlines(Lines(content))
    ensures WithoutCrs(Lines(content)) == Lines(content)
  {
    LinesAreOneLine(content);
    LinesOfAppend(Lines(content), "");
    assert Unlines(Lines(content)) + "" == content;
    assert WithoutCrs(Lines(content)) + [] == WithoutCrs(Lines(content));
  }

  lemma {:induction false} CanonicalAt(plan: Plan, lines: seq<string>, i: nat)
    requires i < |lines|
    ensures Canonical(plan, lines)[i] == CanonicalLine(plan, InService(Views(lines[..i])), lines[i])
  {
    var n := |lines| - 1;
    if i < n {
      CanonicalAt(plan, lines[..n], i);
      assert lines[..n][..i] == lines[..i];
    }
  }

  /** If the undo gives back the text, the unit had no carriage return to lose and nothing to space differently. */
  lemma {:induction false} ExactMeansPlain(content: string)
    requires Unlines(Canonical(PlanFor(Lines(content)), WithoutCrs(Lines(content)))) == content
    ensures Canonical(PlanFor(Lines(content)), Lines(content)) == Lines(content) && content == Unlines(Lines(content))
  {
    var lines := Lines(content);
    var plan, bare := PlanFor(lines), WithoutCrs(lines);
    var c := Canonical(plan, bare);
    CanonicalIsOneLine(content);
    LinesOfAppend(c, "");
    assert Unlines(c) + "" == content && WithoutCrs(c) + [] == WithoutCrs(c);
    FirstWorkDirEndsPlain(Views(lines));
    SameLines(plan, lines, c);
  }

  lemma {:induction false} SameLines(plan: Plan, lines: seq<string>, c: seq<string>)
    requires DirEndsPlain(plan) && c == Canonical(plan, WithoutCrs(lines)) && WithoutCrs(c) == lines
    ensures WithoutCrs(lines) == lines && c == lines
  {
    var bare := WithoutCrs(lines);
    forall i | 0 <= i < |lines| ensures bare[i] == lines[i] == c[i] {
      CanonicalAt(plan, bare, i);
      assert WithoutCrs(c)[i] == lines[i];
      if c[i] != bare[i] {
        WrittenLinesEndPlain(plan.workDir.value);
      }
    }
  }

  lemma {:induction false} CanonicalIsOneLine(content: string)
    ensures var c := Canonical(PlanFor(Lines(content)), WithoutCrs(Lines(content)));
            forall i :: 0 <= i < |c| ==> OneLine(c[i])
  {
    var lines := Lines(content);
    LinesAreOneLine(content);
    FirstWorkDirIsOneLine(lines);
    CanonicalStaysOneLine(PlanFor(lines), WithoutCrs(lines));
  }

  lemma {:induction false} CanonicalStaysOneLine(plan: Plan, lines: seq<string>)
    requires forall i :: 0 <= i < |lines| ==> OneLine(lines[i])
    requires plan.workDir.Some? ==> OneLine(plan.workDir.value)
    ensures forall i :: 0 <= i < |Canonical(plan, lines)| ==> OneLine(Canonical(plan, lines)[i])
  {
    if lines != [] {
      CanonicalStaysOneLine(plan, lines[..|lines| - 1]);
      if plan.workDir.Some? {
        PlainStaysOneLine(plan.workDir.value);
      }
    }
  }

  lemma {:induction false} PlainStaysOneLine(dir: string)
    requires OneLine(dir)
    ensures OneLine(PlainLine(dir))
  {
  }

  lemma {:induction false} UnlinesCons(l: string, rest: seq<string>)
    ensures Unlines([l] + rest) == l + "\n" + Unlines(rest)
  {
    UnlinesAppend([l], rest);
    UnlinesOfTwo(l, l);
  }

  /** Writing out the lines of a text gives back the text exactly when all its newlines are plain. */
  lemma {:induction false} PlainNewlinesIff(s: string)
    ensures s == Unlines(Lines(s)) <==> PlainNewlines(s)
    decreases |s|
  {
    if s != [] {
      if OneLine(s) {
        UnendedLine(s);
      } else {
        var line, rest := FirstLine(s);
        PlainNewlinesIff(rest);
        UnlinesCons(WithoutCr(line), Lines(rest));
        PlainNewlinesStep(line, rest, Unlines(Lines(rest)));
      }
    }
  }

  lemma {:induction false} UnendedIff(s: string)
    ensures LineEnd(s) == |s| <==> OneLine(s)
  {
    assert s[..|s|] == s;
  }

  lemma {:induction false} UnendedLine(s: string)
    requires s != [] && OneLine(s)
    ensures s != Unlines(Lines(s)) && !PlainNewlines(s)
  {
    UnendedIff(s);
    UnlinesOfTwo(s, s);
    assert |s + "\n"| == |s| + 1;
  }

  lemma {:induction false} FirstLine(s: string) returns (line: string, rest: string)
    requires !OneLine(s)
    ensures OneLine(line) && s == line + "\n" + rest && |rest| < |s|
    ensures Lines(s) == [WithoutCr(line)] + Lines(rest)
  {
    var n := LineEnd(s);
    UnendedIff(s);
    line, rest := s[..n], s[n + 1..];
    assert s == line + "\n" + rest;
    LinesOfLine(line, rest);
  }

  lemma {:induction false} PlainNewlinesStep(line: string, rest: string, back: string)
    requires OneLine(line) && (rest == back <==> PlainNewlines(rest))
    ensures WithoutCr(line) + "\n" + back == line + "\n" + rest <==> PlainNewlines(line + "\n" + rest)
  {
    PlainNewlinesCons(line, rest);
    LineComesBackIff(line, rest, back);
  }

  lemma {:induction false} LineComesBackIff(line: string, rest: string, back: string)
    ensures WithoutCr(line) + "\n" + back == line + "\n" + rest <==> WithoutCr(line) == line && back == rest
  {
    var read, was := WithoutCr(line) + "\n" + back, line + "\n" + rest;
    if WithoutCr(line) != line {
      assert read[|line| - 1] == '\n' && was[|line| - 1] == '\r';
    } else {
      assert read[|line| + 1..] == back && was[|line| + 1..] == rest;
    }
  }

  lemma {:induction false} PlainNewlinesCons(line: string, rest: string)
    requires OneLine(line)
    ensures PlainNewlines(line + "\n" + rest) <==> WithoutCr(line) == line && PlainNewlines(rest)
  {
    var s, n := line + "\n" + rest, |line|;
    assert s[n] == '\n' && s[n + 1..] == rest && s[..n] == line;
    assert rest != [] ==> s[|s| - 1] == rest[|rest| - 1];
    if PlainNewlines(s) {
      assert n > 0 ==> s[n - 1] == line[n - 1];
      forall i | 0 <= i < |rest| - 1 ensures !(rest[i] == '\r' && rest[i + 1] == '\n') {
        assert rest[i] == s[n + 1 + i] && rest[i + 1] == s[n + 1 + i + 1];
      }
    }
    if WithoutCr(line) == line && PlainNewlines(rest) {
      forall i | 0 <= i < |s| - 1 ensures !(s[i] == '\r' && s[i + 1] == '\n') {
        if i + 1 < n {
          assert s[i + 1] == line[i + 1];
        } else if i > n {
          assert s[i] == rest[i - n - 1] && s[i + 1] == rest[i - n];
        }
      }
    }
  }

  lemma {:induction false} CanonicalIff(plan: Plan, lines: seq<string>)
    ensures Canonical(plan, lines) == lines <==> Restorable(plan, lines)
  {
    if lines != [] {
      var n := |lines| - 1;
      var front, l := lines[..n], lines[n];
      CanonicalIff(plan, front);
      CanonicalLineIff(plan, InService(Views(front)), l);
      SameSnoc(Canonical(plan, front), CanonicalLine(plan, InService(Views(front)), l), front, l);
      assert lines == front + [l];
    }
  }

  lemma {:induction false} SameSnoc(a: seq<string>, x: string, b: seq<string>, y: string)
    requires |a| == |b|
    ensures a + [x] == b + [y] <==> a == b && x == y
  {
    assert (a + [x])[..|a|] == a && (b + [y])[..|b|] == b;
    assert (a + [x])[|a|] == x && (b + [y])[|b|] == y;
  }

  lemma {:induction false} CanonicalLineIff(plan: Plan, inService: bool, l: string)
    ensures CanonicalLine(plan, inService, l) == l
       <==> (plan.workDir.Some? ==>
              && (Rewrites(plan, inService, l) ==> l == PlainLine(plan.workDir.value))
              && l != TolerantLine(plan.workDir.value))
  {
    if plan.workDir.Some? {
      var d := plan.workDir.value;
      assert |PlainLine(d)| + 1 == |TolerantLine(d)|;
    }
  }
}
