/**
 * The batch driver of scripts/process_all.py: the list of tasks (forecast day x
 * hour x pressure level), the names and time strings of one task, the
 * staged fetch -> warp -> convert -> upload procedure with its reuse rule and
 * cleanups, and the sequential success counter with the exit code.
 *
 * The stages themselves (the WCS download, the warp, the MBTiles
 * conversion, the `gh` calls) are outside this module: their outcomes are
 * inputs, and what the procedure asks of them is recorded as a sequence of
 * actions.
 */
module Batch {
  import opened Wrappers
  import opened Text
  import opened Seqs
  import opened Releases

  /** range(5, 20): hours 5 to 19. */
  const Hours: seq<nat> := seq(15, i => 5 + i)
  const PressureLevels: seq<nat> := [500, 600, 700, 800, 900]
  const PerDay: nat := 75

  datatype Task = Task(hour: nat, pressure: nat, day: int)

  /** The tasks of one forecast day: hour-major, pressures in list order. */
  function DayTasks(day: int): (ts: seq<Task>)
    ensures |ts| == PerDay
  {
    seq(PerDay, k requires 0 <= k < PerDay => Task(Hours[k / 5], PressureLevels[k % 5], day))
  }

  /** The task list of process_all, day after day. */
  function Tasks(days: seq<int>): (ts: seq<Task>)
    ensures |ts| == |days| * PerDay
  {
    if days == [] then [] else DayTasks(days[0]) + Tasks(days[1..])
  }

  /** Task number d * 75 + h * 5 + p is hour 5 + h at the p-th pressure level of day d. */
  lemma {:induction false} TaskAt(days: seq<int>, d: nat, h: nat, p: nat)
    requires d < |days| && h < 15 && p < 5
    ensures d * PerDay + h * 5 + p < |Tasks(days)|
    ensures Tasks(days)[d * PerDay + h * 5 + p] == Task(5 + h, PressureLevels[p], days[d])
    decreases d
  {
    var k := h * 5 + p;
    assert k / 5 == h && k % 5 == p;
    if d == 0 {
      assert Tasks(days)[k] == DayTasks(days[0])[k];
    } else {
      TaskAt(days[1..], d - 1, h, p);
      assert d * PerDay + k == PerDay + ((d - 1) * PerDay + k);
    }
  }

  /** Every task has an hour in 5..19, a listed pressure level and a listed day. */
  lemma {:induction false} TaskRanges(days: seq<int>)
    ensures forall t :: t in Tasks(days) ==>
      5 <= t.hour <= 19 && t.pressure in PressureLevels && t.day in days
    decreases |days|
  {
    if days != [] {
      TaskRanges(days[1..]);
      forall t | t in DayTasks(days[0])
        ensures 5 <= t.hour <= 19 && t.pressure in PressureLevels
      {
        var k :| 0 <= k < PerDay && DayTasks(days[0])[k] == t;
        assert t.hour == Hours[k / 5];
      }
    }
  }

  /** With the default forecast days [0, 1] there are 150 tasks. */
  lemma DefaultTaskCount()
    ensures |Tasks([0, 1])| == 150
  {
  }

  /** arome_vv_{source}_{target}_{HH}_{pressure}, HH at least two digits. */
  function FileBase(sourceDate: string, targetDate: string, hour: nat, pressure: nat): (b: string)
    ensures HasPrefix(b, "arome_vv_" + sourceDate + "_" + targetDate + "_")
    ensures EndsWith(b, "_" + NatToString(pressure))
    ensures hour < 100 ==> var k := 11 + |sourceDate| + |targetDate|;
      |b| == k + 3 + |NatToString(pressure)| && AllDigits(b[k..k + 2]) && DigitsValue(b[k..k + 2]) == hour
  {
    var pre := "arome_vv_" + sourceDate + "_" + targetDate + "_";
    Parts(pre, ZeroPad2(hour), "_" + NatToString(pressure));
    pre + ZeroPad2(hour) + ("_" + NatToString(pressure))
  }

  /** The forecast time: the target date at the task's hour, in UTC. */
  function TimeValue(targetDate: string, hour: nat): (tv: string)
    ensures |tv| > |targetDate| && tv[..|targetDate|] == targetDate && tv[|targetDate|] == 'T'
    ensures hour < 100 ==> |tv| == |targetDate| + 10 && AllDigits(tv[|targetDate| + 1..|targetDate| + 3])
                           && DigitsValue(tv[|targetDate| + 1..|targetDate| + 3]) == hour
                           && tv[|targetDate| + 3..] == ":00:00Z"
  {
    var tv := targetDate + "T" + ZeroPad2(hour) + ":00:00Z";
    assert tv[|targetDate| + 1..|targetDate| + 1 + |ZeroPad2(hour)|] == ZeroPad2(hour);
    tv
  }

  /** The reference (run) time: the forecast-time format for the source date at hour 0. */
  function RefTimeValue(sourceDate: string): (rt: string)
    ensures rt == TimeValue(sourceDate, 0)
  {
    sourceDate + "T00:00:00Z"
  }

  datatype Paths = Paths(tiff: string, warped: string, mbtiles: string, mbtilesName: string)

  /** The task's three files under the output directory, and the name its .mbtiles has in the release. */
  function TaskPaths(outputDir: string, sourceDate: string, targetDate: string, hour: nat, pressure: nat): (p: Paths)
    ensures p.mbtilesName == FileBase(sourceDate, targetDate, hour, pressure) + ".mbtiles"
    ensures EndsWith(p.tiff, FileBase(sourceDate, targetDate, hour, pressure) + ".tiff")
    ensures EndsWith(p.warped, FileBase(sourceDate, targetDate, hour, pressure) + "_mercator.tiff")
    ensures EndsWith(p.mbtiles, p.mbtilesName)
  {
    var base := FileBase(sourceDate, targetDate, hour, pressure);
    Paths(PathJoin(outputDir, base + ".tiff"), PathJoin(outputDir, base + "_mercator.tiff"),
          PathJoin(outputDir, base + ".mbtiles"), base + ".mbtiles")
  }

  /** Within one run (same dates) two tasks share a file name only if they share hour and pressure. */
  lemma FileBaseInjective(sourceDate: string, targetDate: string, h1: nat, p1: nat, h2: nat, p2: nat)
    requires h1 < 100 && h2 < 100
    requires FileBase(sourceDate, targetDate, h1, p1) == FileBase(sourceDate, targetDate, h2, p2)
    ensures h1 == h2 && p1 == p2
  {
    var b := FileBase(sourceDate, targetDate, h1, p1);
    var n1, n2 := NatToString(p1), NatToString(p2);
    assert |n1| == |n2|;
    assert "_" + n1 == b[|b| - |n1| - 1..] == "_" + n2;
    assert n1 == ("_" + n1)[1..] && n2 == ("_" + n2)[1..];
    NatToStringInjective(p1, p2);
  }

  /** Helper: moving the brackets of a six-part concatenation. */
  lemma Regroup(x: string, u: string, z: string, v: string, n: string, m: string)
    ensures (x + u) + z + (v + n) + m == x + (u + z + v) + (n + m)
  {
  }

  /** The .mbtiles name of a task carries the hour tag the release filter looks for. */
  lemma NameCarriesHourTag(sourceDate: string, targetDate: string, hour: nat, pressure: nat)
    ensures Contains(FileBase(sourceDate, targetDate, hour, pressure) + ".mbtiles", HourTag(hour))
  {
    var pre := "arome_vv_" + sourceDate + "_" + targetDate;
    var post := NatToString(pressure) + ".mbtiles";
    Regroup(pre, "_", ZeroPad2(hour), "_", NatToString(pressure), ".mbtiles");
    ContainsMiddle(pre, HourTag(hour), post);
  }

  /** The .mbtiles name of a task carries the pressure tag the release filter looks for. */
  lemma NameCarriesPressureTag(sourceDate: string, targetDate: string, hour: nat, pressure: nat)
    ensures Contains(FileBase(sourceDate, targetDate, hour, pressure) + ".mbtiles", PressureTag(pressure))
  {
    var pre := "arome_vv_" + sourceDate + "_" + targetDate + "_" + ZeroPad2(hour);
    assert FileBase(sourceDate, targetDate, hour, pressure) + ".mbtiles" == pre + PressureTag(pressure) + "mbtiles";
    ContainsMiddle(pre, PressureTag(pressure), "mbtiles");
  }

  /** Helper: a digit string holds no '/'. */
  lemma DigitsHaveNoSlash(s: string)
    requires AllDigits(s)
    ensures '/' !in s
  {
  }

  /** Helper: the length of a joined path. */
  lemma JoinLength(dir: string, name: string)
    requires name != [] && name[0] != '/'
    ensures |PathJoin(dir, name)| == |dir| + |name| + (if dir == [] || dir[|dir| - 1] == '/' then 0 else 1)
  {
    assert name[..1] != "/";
  }

  /** The three files of a task are three different paths. */
  lemma TaskPathsDistinct(outputDir: string, sourceDate: string, targetDate: string, hour: nat, pressure: nat)
    ensures var p := TaskPaths(outputDir, sourceDate, targetDate, hour, pressure);
      p.tiff != p.warped && p.tiff != p.mbtiles && p.warped != p.mbtiles
  {
    var base := FileBase(sourceDate, targetDate, hour, pressure);
    assert (base + ".tiff")[0] == 'a' && (base + "_mercator.tiff")[0] == 'a' && (base + ".mbtiles")[0] == 'a';
    JoinLength(outputDir, base + ".tiff");
    JoinLength(outputDir, base + "_mercator.tiff");
    JoinLength(outputDir, base + ".mbtiles");
  }

  /** The uploaded file's base name is the name checked against the release (dates contain no '/'). */
  lemma UploadNameMatches(outputDir: string, sourceDate: string, targetDate: string, hour: nat, pressure: nat)
    requires '/' !in sourceDate && '/' !in targetDate
    ensures var p := TaskPaths(outputDir, sourceDate, targetDate, hour, pressure);
      Basename(p.mbtiles) == p.mbtilesName
  {
    DigitsHaveNoSlash(ZeroPad2(hour));
    DigitsHaveNoSlash(NatToString(pressure));
    var name := FileBase(sourceDate, targetDate, hour, pressure) + ".mbtiles";
    assert name == "arome_vv_" + sourceDate + "_" + targetDate + "_" + ZeroPad2(hour) + "_"
                   + NatToString(pressure) + ".mbtiles";
    BasenameOfJoin(outputDir, name);
  }

  /** What the file system says about an output before its stage. */
  datatype FileState = FileState(present: bool, size: int)

  /** An output is reused, and its stage counted as done, when it exists, is over 1 MB, and reuse is on and not forced off. */
  predicate Reusable(f: FileState, skipExisting: bool, force: bool): (reused: bool)
    ensures force || !skipExisting ==> !reused
    ensures reused ==> f.present && f.size > 1000000
  {
    f.present && f.size > 1000000 && skipExisting && !force
  }

  /** A stage call either returns its boolean or raises. */
  datatype StageResult = Returned(ok: bool) | Raised

  /** Python truthiness of the optional release tag. */
  predicate Truthy(tag: Option<string>) {
    tag.Some? && tag.value != ""
  }

  /**
   * check_file_exists_in_release: the asset names of the release, or None
   * when the `gh` call failed, which counts as absent.
   */
  predicate InRelease(assets: Option<seq<string>>, name: string) {
    assets.Some? && name in assets.value
  }

  /** The outcomes of everything one task consults. */
  datatype Env = Env(releaseAssets: Option<seq<string>>, tiff: FileState, warped: FileState, mbtiles: FileState,
                     fetch: StageResult, warp: StageResult, convertRaises: bool, mbtilesPresentAfter: bool)

  /** What the procedure asks of the outside world, in order. */
  datatype Action =
    | Fetch(timeValue: string, refTimeValue: string, pressure: string, output: string)
    | Warp(input: string, output: string)
    | Convert(input: string, output: string)
    | Upload(path: string)
    | Cleanup(path: string)

  /** A stage succeeds when its output is reused or its call returns True. */
  predicate StageOk(reused: bool, result: StageResult) {
    reused || result == Returned(true)
  }

  /** The task's .mbtiles is already in the release, so nothing is done. */
  predicate Skipped(outputDir: string, sourceDate: string, targetDate: string, hour: nat, pressure: nat,
                    releaseTag: Option<string>, env: Env) {
    Truthy(releaseTag) && InRelease(env.releaseAssets, TaskPaths(outputDir, sourceDate, targetDate, hour, pressure).mbtilesName)
  }

  predicate FetchOk(env: Env, skipExisting: bool, force: bool) {
    StageOk(Reusable(env.tiff, skipExisting, force), env.fetch)
  }

  predicate WarpOk(env: Env, skipExisting: bool, force: bool) {
    StageOk(Reusable(env.warped, skipExisting, force), env.warp)
  }

  /** The conversion's exceptions are caught and count as failure. */
  predicate ConvertOk(env: Env, skipExisting: bool, force: bool) {
    Reusable(env.mbtiles, skipExisting, force) || !env.convertRaises
  }

  /** What the fetch stage yields: True for a reused TIFF, otherwise the call's result. */
  function FetchResult(env: Env, skipExisting: bool, force: bool): StageResult {
    if Reusable(env.tiff, skipExisting, force) then Returned(true) else env.fetch
  }

  function WarpResult(env: Env, skipExisting: bool, force: bool): StageResult {
    if Reusable(env.warped, skipExisting, force) then Returned(true) else env.warp
  }

  /** The stage call, or nothing when the stage's output is reused. */
  function Call(reused: bool, a: Action): seq<Action> {
    if reused then [] else [a]
  }

  /**
   * The actions of steps 1 to 4, in order, case by case: a fetch that raises
   * reaches the outer handler (both intermediate files removed), a fetch
   * returning False removes the TIFF only, a failed warp removes both TIFFs,
   * a failed conversion removes the warped TIFF and the MBTiles, and a
   * successful run removes the two TIFFs and may upload.
   */
  function StagePlan(p: Paths, fetch: Action, skipExisting: bool, force: bool, releaseTag: Option<string>, env: Env)
    : seq<Action>
  {
    var f := Call(Reusable(env.tiff, skipExisting, force), fetch);
    var w := Call(Reusable(env.warped, skipExisting, force), Warp(p.tiff, p.warped));
    var c := Call(Reusable(env.mbtiles, skipExisting, force), Convert(p.warped, p.mbtiles));
    match FetchResult(env, skipExisting, force)
    case Raised => f + [Cleanup(p.tiff), Cleanup(p.warped)]
    case Returned(false) => f + [Cleanup(p.tiff)]
    case Returned(true) =>
      if !WarpOk(env, skipExisting, force) then f + w + [Cleanup(p.tiff), Cleanup(p.warped)]
      else if !ConvertOk(env, skipExisting, force) then f + w + [Cleanup(p.tiff)] + c + [Cleanup(p.warped), Cleanup(p.mbtiles)]
      else f + w + [Cleanup(p.tiff)] + c + [Cleanup(p.warped)]
             + (if Truthy(releaseTag) && env.mbtilesPresentAfter then [Upload(p.mbtiles)] else [])
  }

  /** Every action the procedure can ask for, in the order the source can ask for them. */
  function FullPlan(p: Paths, fetch: Action): seq<Action> {
    [fetch, Warp(p.tiff, p.warped), Cleanup(p.tiff), Convert(p.warped, p.mbtiles),
     Cleanup(p.warped), Cleanup(p.mbtiles), Upload(p.mbtiles)]
  }

  /** Which of the seven actions of FullPlan a run asks for, given the stage outcomes. */
  function Included(skipExisting: bool, force: bool, releaseTag: Option<string>, env: Env): seq<bool> {
    var fetched := FetchOk(env, skipExisting, force);
    var ok := fetched && WarpOk(env, skipExisting, force) && ConvertOk(env, skipExisting, force);
    [!Reusable(env.tiff, skipExisting, force),
     fetched && !Reusable(env.warped, skipExisting, force),
     true,
     fetched && WarpOk(env, skipExisting, force) && !Reusable(env.mbtiles, skipExisting, force),
     FetchResult(env, skipExisting, force) != Returned(false),
     fetched && WarpOk(env, skipExisting, force) && !ConvertOk(env, skipExisting, force),
     ok && Truthy(releaseTag) && env.mbtilesPresentAfter]
  }

  lemma SelectSeven(l: seq<Action>, k: seq<bool>)
    requires |l| == 7 && |k| == 7
    ensures Select(l, k) == Call(!k[0], l[0]) + (Call(!k[1], l[1]) + (Call(!k[2], l[2]) + (Call(!k[3], l[3])
                            + (Call(!k[4], l[4]) + (Call(!k[5], l[5]) + Call(!k[6], l[6]))))))
  {
    var l6, k6 := l[6..], k[6..];
    var l5, k5 := l[5..], k[5..];
    var l4, k4 := l[4..], k[4..];
    var l3, k3 := l[3..], k[3..];
    var l2, k2 := l[2..], k[2..];
    var l1, k1 := l[1..], k[1..];
    assert l6[1..] == [] && l5[1..] == l6 && l4[1..] == l5 && l3[1..] == l4 && l2[1..] == l3 && l1[1..] == l2;
    assert k6[1..] == [] && k5[1..] == k6 && k4[1..] == k5 && k3[1..] == k4 && k2[1..] == k3 && k1[1..] == k2;
    assert l6[0] == l[6] && l5[0] == l[5] && l4[0] == l[4] && l3[0] == l[3] && l2[0] == l[2] && l1[0] == l[1];
    assert k6[0] == k[6] && k5[0] == k[5] && k4[0] == k[4] && k3[0] == k[3] && k2[0] == k[2] && k1[0] == k[1];
    assert Select(l6[1..], k6[1..]) == [];
    var t6 := Select(l6, k6);
    assert t6 == Call(!k[6], l[6]);
    var t5 := Select(l5, k5);
    assert t5 == Call(!k[5], l[5]) + t6;
    var t4 := Select(l4, k4);
    assert t4 == Call(!k[4], l[4]) + t5;
    var t3 := Select(l3, k3);
    assert t3 == Call(!k[3], l[3]) + t4;
    var t2 := Select(l2, k2);
    assert t2 == Call(!k[2], l[2]) + t3;
    var t1 := Select(l1, k1);
    assert t1 == Call(!k[1], l[1]) + t2;
  }

  /** StagePlanSelects when the fetch stage fails. */
  lemma SelectsWhenFetchFails(p: Paths, fetch: Action, skipExisting: bool, force: bool, releaseTag: Option<string>, env: Env)
    requires FetchResult(env, skipExisting, force) != Returned(true)
    ensures StagePlan(p, fetch, skipExisting, force, releaseTag, env)
      == Select(FullPlan(p, fetch), Included(skipExisting, force, releaseTag, env))
  {
    var full, keep := FullPlan(p, fetch), Included(skipExisting, force, releaseTag, env);
    SelectSeven(full, keep);
    var s0, s1, s2, s3 := Call(!keep[0], full[0]), Call(!keep[1], full[1]), Call(!keep[2], full[2]), Call(!keep[3], full[3]);
    var s4, s5, s6 := Call(!keep[4], full[4]), Call(!keep[5], full[5]), Call(!keep[6], full[6]);
    assert s0 == Call(Reusable(env.tiff, skipExisting, force), fetch) && s2 == [Cleanup(p.tiff)];
    assert s1 == [] && s3 == [] && s5 == [] && s6 == [];
    assert s4 == if FetchResult(env, skipExisting, force) == Raised then [Cleanup(p.warped)] else [];
    assert Select(full, keep) == s0 + (s1 + (s2 + (s3 + (s4 + (s5 + s6)))));
    assert Select(full, keep) == s0 + (s2 + s4);
  }

  /** StagePlanSelects when the warp fails. */
  lemma SelectsWhenWarpFails(p: Paths, fetch: Action, skipExisting: bool, force: bool, releaseTag: Option<string>, env: Env)
    requires FetchResult(env, skipExisting, force) == Returned(true)
    requires !WarpOk(env, skipExisting, force)
    ensures StagePlan(p, fetch, skipExisting, force, releaseTag, env)
      == Select(FullPlan(p, fetch), Included(skipExisting, force, releaseTag, env))
  {
    var full, keep := FullPlan(p, fetch), Included(skipExisting, force, releaseTag, env);
    SelectSeven(full, keep);
    var s0, s1, s2, s3 := Call(!keep[0], full[0]), Call(!keep[1], full[1]), Call(!keep[2], full[2]), Call(!keep[3], full[3]);
    var s4, s5, s6 := Call(!keep[4], full[4]), Call(!keep[5], full[5]), Call(!keep[6], full[6]);
    assert s0 == Call(Reusable(env.tiff, skipExisting, force), fetch) && s2 == [Cleanup(p.tiff)];
    assert s1 == Call(Reusable(env.warped, skipExisting, force), Warp(p.tiff, p.warped)) && s4 == [Cleanup(p.warped)];
    assert Select(full, keep) == s0 + (s1 + (s2 + (s3 + (s4 + (s5 + s6)))));
    assert s3 == [] && s5 == [] && s6 == [];
    assert Select(full, keep) == s0 + s1 + (s2 + s4);
  }

  /** StagePlanSelects when the conversion fails. */
  lemma SelectsWhenConvertFails(p: Paths, fetch: Action, skipExisting: bool, force: bool, releaseTag: Option<string>, env: Env)
    requires FetchResult(env, skipExisting, force) == Returned(true)
    requires WarpOk(env, skipExisting, force) && !ConvertOk(env, skipExisting, force)
    ensures StagePlan(p, fetch, skipExisting, force, releaseTag, env)
      == Select(FullPlan(p, fetch), Included(skipExisting, force, releaseTag, env))
  {
    var full, keep := FullPlan(p, fetch), Included(skipExisting, force, releaseTag, env);
    SelectSeven(full, keep);
    var s0, s1, s2, s3 := Call(!keep[0], full[0]), Call(!keep[1], full[1]), Call(!keep[2], full[2]), Call(!keep[3], full[3]);
    var s4, s5, s6 := Call(!keep[4], full[4]), Call(!keep[5], full[5]), Call(!keep[6], full[6]);
    assert s0 == Call(Reusable(env.tiff, skipExisting, force), fetch) && s2 == [Cleanup(p.tiff)];
    assert s1 == Call(Reusable(env.warped, skipExisting, force), Warp(p.tiff, p.warped)) && s4 == [Cleanup(p.warped)];
    assert Select(full, keep) == s0 + (s1 + (s2 + (s3 + (s4 + (s5 + s6)))));
    assert s3 == Call(Reusable(env.mbtiles, skipExisting, force), Convert(p.warped, p.mbtiles));
    assert s5 == [Cleanup(p.mbtiles)] && s6 == [] && s5 + s6 == s5;
    AppendLeft6(s0, s1, s2, s3, s4, s5);
    assert s4 + s5 == [Cleanup(p.warped), Cleanup(p.mbtiles)];
  }

  /** StagePlanSelects when every stage succeeds. */
  lemma SelectsWhenConverted(p: Paths, fetch: Action, skipExisting: bool, force: bool, releaseTag: Option<string>, env: Env)
    requires FetchResult(env, skipExisting, force) == Returned(true)
    requires WarpOk(env, skipExisting, force) && ConvertOk(env, skipExisting, force)
    ensures StagePlan(p, fetch, skipExisting, force, releaseTag, env)
      == Select(FullPlan(p, fetch), Included(skipExisting, force, releaseTag, env))
  {
    var full, keep := FullPlan(p, fetch), Included(skipExisting, force, releaseTag, env);
    SelectSeven(full, keep);
    var s0, s1, s2, s3 := Call(!keep[0], full[0]), Call(!keep[1], full[1]), Call(!keep[2], full[2]), Call(!keep[3], full[3]);
    var s4, s5, s6 := Call(!keep[4], full[4]), Call(!keep[5], full[5]), Call(!keep[6], full[6]);
    assert s0 == Call(Reusable(env.tiff, skipExisting, force), fetch) && s2 == [Cleanup(p.tiff)];
    assert s1 == Call(Reusable(env.warped, skipExisting, force), Warp(p.tiff, p.warped)) && s4 == [Cleanup(p.warped)];
    assert Select(full, keep) == s0 + (s1 + (s2 + (s3 + (s4 + (s5 + s6)))));
    assert s3 == Call(Reusable(env.mbtiles, skipExisting, force), Convert(p.warped, p.mbtiles));
    assert s5 == [] && s5 + s6 == s6;
    AppendLeft6(s0, s1, s2, s3, s4, s6);
  }

  /**
   * The stage-by-stage plan is FullPlan with each action kept or dropped by
   * Included: whatever the outcomes, the actions come in FullPlan's order.
   */
  lemma StagePlanSelects(p: Paths, fetch: Action, skipExisting: bool, force: bool, releaseTag: Option<string>, env: Env)
    ensures StagePlan(p, fetch, skipExisting, force, releaseTag, env)
      == Select(FullPlan(p, fetch), Included(skipExisting, force, releaseTag, env))
  {
    if FetchResult(env, skipExisting, force) != Returned(true) {
      SelectsWhenFetchFails(p, fetch, skipExisting, force, releaseTag, env);
    } else if !WarpOk(env, skipExisting, force) {
      SelectsWhenWarpFails(p, fetch, skipExisting, force, releaseTag, env);
    } else if !ConvertOk(env, skipExisting, force) {
      SelectsWhenConvertFails(p, fetch, skipExisting, force, releaseTag, env);
    } else {
      SelectsWhenConverted(p, fetch, skipExisting, force, releaseTag, env);
    }
  }

  /** Position of a stage in the pipeline; cleanups are not stages. */
  function StageRank(a: Action): int {
    match a
    case Fetch(_, _, _, _) => 0
    case Warp(_, _) => 1
    case Convert(_, _) => 2
    case Upload(_) => 3
    case Cleanup(_) => -1
  }

  /** What holds of every earlier/later pair of actions of FullPlan. */
  predicate InOrder(p: Paths, x: Action, y: Action) {
    && x != y
    && (!x.Cleanup? && !y.Cleanup? ==> StageRank(x) < StageRank(y))
    && x != Upload(p.mbtiles)
    && !(x == Cleanup(p.tiff) && y == Warp(p.tiff, p.warped))
    && !(x == Cleanup(p.warped) && y == Convert(p.warped, p.mbtiles))
  }

  lemma FullPlanInOrder(p: Paths, fetch: Action)
    requires fetch.Fetch? && p.tiff != p.warped && p.tiff != p.mbtiles && p.warped != p.mbtiles
    ensures forall i, j :: 0 <= i < j < 7 ==> InOrder(p, FullPlan(p, fetch)[i], FullPlan(p, fetch)[j])
  {
  }

  /** Helper: the facts of StagePlanOrder for any selection from FullPlan. */
  lemma SelectionInOrder(p: Paths, fetch: Action, keep: seq<bool>)
    requires fetch.Fetch? && p.tiff != p.warped && p.tiff != p.mbtiles && p.warped != p.mbtiles
    requires |keep| == 7
    ensures var a := Select(FullPlan(p, fetch), keep);
      && (forall i, j :: 0 <= i < j < |a| ==> InOrder(p, a[i], a[j]))
      && (forall x :: x in a ==> x in FullPlan(p, fetch))
  {
    var a, full := Select(FullPlan(p, fetch), keep), FullPlan(p, fetch);
    SelectIsSubseq(full, keep);
    SubseqMembers(a, full);
    FullPlanInOrder(p, fetch);
    SubseqPairs(a, full, (x, y) => InOrder(p, x, y));
  }

  /**
   * Every plan runs the stages in pipeline order, asks for nothing but the
   * task's own stages and cleanups, does each at most once, uploads last,
   * and never removes a file before the stage that reads it.
   */
  lemma StagePlanOrder(p: Paths, fetch: Action, skipExisting: bool, force: bool, releaseTag: Option<string>, env: Env)
    requires fetch.Fetch? && p.tiff != p.warped && p.tiff != p.mbtiles && p.warped != p.mbtiles
    ensures var a := StagePlan(p, fetch, skipExisting, force, releaseTag, env);
      forall i, j :: 0 <= i < j < |a| && !a[i].Cleanup? && !a[j].Cleanup? ==> StageRank(a[i]) < StageRank(a[j])
    ensures var a := StagePlan(p, fetch, skipExisting, force, releaseTag, env);
      forall x :: x in a ==> x in FullPlan(p, fetch)
    ensures var a := StagePlan(p, fetch, skipExisting, force, releaseTag, env);
      forall i, j :: 0 <= i < j < |a| ==> a[i] != a[j]
    ensures var a := StagePlan(p, fetch, skipExisting, force, releaseTag, env);
      Upload(p.mbtiles) in a ==> a[|a| - 1] == Upload(p.mbtiles)
    ensures var a := StagePlan(p, fetch, skipExisting, force, releaseTag, env);
      forall i, j :: 0 <= i < j < |a| && a[j] == Warp(p.tiff, p.warped) ==> a[i] != Cleanup(p.tiff)
    ensures var a := StagePlan(p, fetch, skipExisting, force, releaseTag, env);
      forall i, j :: 0 <= i < j < |a| && a[j] == Convert(p.warped, p.mbtiles) ==> a[i] != Cleanup(p.warped)
  {
    var keep := Included(skipExisting, force, releaseTag, env);
    StagePlanSelects(p, fetch, skipExisting, force, releaseTag, env);
    var a := Select(FullPlan(p, fetch), keep);
    SelectionInOrder(p, fetch, keep);
    forall i | 0 <= i < |a| - 1
      ensures a[i] != Upload(p.mbtiles)
    {
      assert InOrder(p, a[i], a[i + 1]);
    }
  }

  /** Each action is asked for exactly under its condition in Included. */
  lemma StagePlanMembers(p: Paths, fetch: Action, skipExisting: bool, force: bool, releaseTag: Option<string>, env: Env)
    requires fetch.Fetch? && p.tiff != p.warped && p.tiff != p.mbtiles && p.warped != p.mbtiles
    ensures forall i :: 0 <= i < 7 ==>
      (FullPlan(p, fetch)[i] in StagePlan(p, fetch, skipExisting, force, releaseTag, env)
       <==> Included(skipExisting, force, releaseTag, env)[i])
  {
    var full := FullPlan(p, fetch);
    var keep := Included(skipExisting, force, releaseTag, env);
    StagePlanSelects(p, fetch, skipExisting, force, releaseTag, env);
    FullPlanInOrder(p, fetch);
    forall i | 0 <= i < 7
      ensures full[i] in Select(full, keep) <==> keep[i]
    {
      forall j | 0 <= j < 7 && j != i
        ensures full[j] != full[i]
      {
        if j < i { assert InOrder(p, full[j], full[i]); } else { assert InOrder(p, full[i], full[j]); }
      }
      SelectMember(full, keep, i);
    }
  }

  /**
   * Steps 1 to 4 of process_single_file for a task whose files are `p` and
   * whose download request is `fetch`: each stage reuses its output when
   * Reusable, the first failing stage ends the procedure with cleanups, and a
   * failed upload is only logged.
   */
  method RunStages(p: Paths, fetch: Action, skipExisting: bool, force: bool, releaseTag: Option<string>, env: Env)
    returns (ok: bool, actions: seq<Action>)
    requires fetch.Fetch? && p.tiff != p.warped && p.tiff != p.mbtiles && p.warped != p.mbtiles
    ensures actions == StagePlan(p, fetch, skipExisting, force, releaseTag, env)
    ensures ok <==>
      FetchOk(env, skipExisting, force) && WarpOk(env, skipExisting, force) && ConvertOk(env, skipExisting, force)
  {
    ok := false;
    // Step 1: fetch the TIFF.
    var fetched := Returned(true);
    actions := [];
    if !Reusable(env.tiff, skipExisting, force) {
      actions := [fetch];
      fetched := env.fetch;
    }
    if fetched.Raised? {
      actions := actions + [Cleanup(p.tiff), Cleanup(p.warped)];
    } else if !fetched.ok {
      actions := actions + [Cleanup(p.tiff)];
    } else {
      // Step 2: warp it to Web Mercator.
      var warped := Returned(true);
      if !Reusable(env.warped, skipExisting, force) {
        actions := actions + [Warp(p.tiff, p.warped)];
        warped := env.warp;
      }
      if warped.Raised? || !warped.ok {
        actions := actions + [Cleanup(p.tiff), Cleanup(p.warped)];
      } else {
        actions := actions + [Cleanup(p.tiff)];
        // Step 3: convert to MBTiles; an exception here is caught and is a failure.
        var converted := true;
        if !Reusable(env.mbtiles, skipExisting, force) {
          actions := actions + [Convert(p.warped, p.mbtiles)];
          converted := !env.convertRaises;
        }
        if !converted {
          actions := actions + [Cleanup(p.warped), Cleanup(p.mbtiles)];
        } else {
          actions := actions + [Cleanup(p.warped)];
          // Step 4: upload; its failure is only logged.
          if Truthy(releaseTag) && env.mbtilesPresentAfter {
            actions := actions + [Upload(p.mbtiles)];
          }
          ok := true;
        }
      }
    }
  }

  /**
   * process_single_file: nothing is done for a task whose .mbtiles is
   * already in the release; otherwise the stages run on a task's files.
   */
  method ProcessSingleFile(outputDir: string, sourceDate: string, targetDate: string, hour: nat, pressure: nat,
                           skipExisting: bool, force: bool, releaseTag: Option<string>, env: Env)
    returns (ok: bool, actions: seq<Action>)
    ensures ok <==>
      Skipped(outputDir, sourceDate, targetDate, hour, pressure, releaseTag, env) ||
      (FetchOk(env, skipExisting, force) && WarpOk(env, skipExisting, force) && ConvertOk(env, skipExisting, force))
    ensures actions ==
      if Skipped(outputDir, sourceDate, targetDate, hour, pressure, releaseTag, env) then []
      else var p := TaskPaths(outputDir, sourceDate, targetDate, hour, pressure);
        StagePlan(p, Fetch(TimeValue(targetDate, hour), RefTimeValue(sourceDate), NatToString(pressure), p.tiff),
                  skipExisting, force, releaseTag, env)
  {
    var p := TaskPaths(outputDir, sourceDate, targetDate, hour, pressure);
    if Truthy(releaseTag) && InRelease(env.releaseAssets, p.mbtilesName) {
      return true, [];
    }
    TaskPathsDistinct(outputDir, sourceDate, targetDate, hour, pressure);
    ok, actions := RunStages(p, Fetch(TimeValue(targetDate, hour), RefTimeValue(sourceDate), NatToString(pressure), p.tiff),
                             skipExisting, force, releaseTag, env);
  }

  /** The release tag uploads go to: dropped when creating the release failed. */
  function ReleaseForUploads(tag: Option<string>, created: bool): (r: Option<string>)
    ensures Truthy(r) <==> Truthy(tag) && created
    ensures Truthy(r) ==> r == tag
  {
    if Truthy(tag) && !created then None else tag
  }

  /**
   * The sequential branch of process_all: run every task in order and count
   * those that returned True. `outcome` is the result of process_single_file
   * for a task; distinct tasks of one run use distinct files (FileBaseInjective).
   */
  method ProcessAllSequential(tasks: seq<Task>, outcome: Task -> bool) returns (total: nat, successful: nat)
    ensures total == |tasks| && successful == Count(tasks, outcome) && successful <= total
  {
    total := |tasks|;
    successful := 0;
    var i := 0;
    while i < |tasks|
      invariant 0 <= i <= |tasks|
      invariant successful == Count(tasks[..i], outcome)
    {
      assert tasks[..i + 1] == tasks[..i] + [tasks[i]];
      CountSnoc(tasks[..i], tasks[i], outcome);
      if outcome(tasks[i]) {
        successful := successful + 1;
      }
      i := i + 1;
    }
    assert tasks[..i] == tasks;
    CountBound(tasks, outcome);
  }

  /** The process exit code: 0 when every file succeeded, 1 otherwise. */
  function ExitCode(total: nat, successful: nat): (code: int)
    ensures code == 0 || code == 1
    ensures code == 0 <==> successful == total
  {
    if successful == total then 0 else 1
  }

  /** The run exits with 0 exactly when every task succeeded. */
  lemma ExitCodeZero(tasks: seq<Task>, outcome: Task -> bool)
    ensures ExitCode(|tasks|, Count(tasks, outcome)) == 0 <==> forall i :: 0 <= i < |tasks| ==> outcome(tasks[i])
  {
    CountAll(tasks, outcome);
  }
}
