/**
 * The wind-component download of scripts/run_wind_components_github.py:
 * the TIFF validity check, the U/V file names, the download -> validate ->
 * upload loop over day x hour x pressure x component, its counters and its
 * return rule. The download itself, the file system and the `gh` calls
 * are inputs.
 */
module Wind {
  import opened Wrappers
  import opened Text
  import opened Seqs

  /** What is_valid_tiff learns from rasterio, when it is importable. */
  datatype RasterProbe =
    | NoRasterio                                  // ImportError: only size and header are checked
    | RasterFails                                 // any other exception while opening or reading
    | Raster(width: int, height: int, firstPixelCount: int)

  /**
   * What is_valid_tiff observes of a file: its size (None when getsize
   * raises), its first bytes (None when opening or reading raises) and the
   * raster probe.
   */
  datatype TiffProbe = TiffProbe(size: Option<int>, header: Option<seq<bv8>>, raster: RasterProbe)

  /** The two TIFF image file headers: "II" with 42 little-endian, "MM" with 42 big-endian. */
  const LittleEndianMagic: seq<bv8> := [0x49, 0x49, 0x2A, 0x00]
  const BigEndianMagic: seq<bv8> := [0x4D, 0x4D, 0x00, 0x2A]

  predicate TiffHeader(h: seq<bv8>) {
    h == LittleEndianMagic || h == BigEndianMagic
  }

  /**
   * The accepted headers are exactly the four-byte headers that name a byte
   * order ("II" or "MM") followed by the number 42 read in that order.
   */
  lemma TiffHeaderMeaning(h: seq<bv8>)
    ensures TiffHeader(h) <==>
      (|h| == 4 &&
       ((h[0] == 0x49 && h[1] == 0x49 && h[2] as int + 256 * h[3] as int == 42) ||
        (h[0] == 0x4D && h[1] == 0x4D && 256 * h[2] as int + h[3] as int == 42)))
  {
    if |h| == 4 && h[0] == 0x49 && h[1] == 0x49 && h[2] as int + 256 * h[3] as int == 42 {
      assert h[3] == 0 && h[2] == 0x2A;
      assert h == LittleEndianMagic;
    }
    if |h| == 4 && h[0] == 0x4D && h[1] == 0x4D && 256 * h[2] as int + h[3] as int == 42 {
      assert h[2] == 0 && h[3] == 0x2A;
      assert h == BigEndianMagic;
    }
  }

  /** The rasterio part of the check: a missing rasterio passes, a failing one rejects. */
  predicate RasterAcceptable(r: RasterProbe) {
    match r
    case NoRasterio => true
    case RasterFails => false
    case Raster(w, h, n) => w >= 100 && h >= 100 && n != 0
  }

  /** is_valid_tiff, with a failure of its own error path counting as "not valid". */
  function IsValidTiff(p: TiffProbe): (valid: bool)
    ensures valid ==> p.size.Some? && p.size.value >= 1000000
    ensures valid ==> p.header.Some? && TiffHeader(p.header.value)
    ensures valid ==> RasterAcceptable(p.raster)
    ensures (p.size.Some? && p.size.value >= 1000000 && p.header.Some? && TiffHeader(p.header.value)
             && RasterAcceptable(p.raster)) ==> valid
  {
    if p.size.None? then false
    else if p.size.value < 1000000 then false
    else if p.header.None? then false
    else if !TiffHeader(p.header.value) then false
    else match p.raster
      case NoRasterio => true
      case RasterFails => false
      case Raster(w, h, n) => if w < 100 || h < 100 then false else n != 0
  }

  /** What upload_to_github_release observes: the tag and the results of the three `gh` calls. */
  datatype UploadEnv = UploadEnv(tag: Option<string>, releaseExists: bool, createOk: bool, uploadOk: bool)

  /**
   * upload_to_github_release: create the release when it does not exist,
   * then upload. Without a tag the `gh` call cannot be built and the upload
   * fails.
   */
  function Upload(e: UploadEnv): (uploaded: bool)
    ensures uploaded ==> e.tag.Some? && e.uploadOk
    ensures e.tag.Some? && e.releaseExists ==> (uploaded <==> e.uploadOk)
    ensures !e.releaseExists && !e.createOk ==> !uploaded
    ensures e.tag.Some? && !e.releaseExists && e.createOk ==> (uploaded <==> e.uploadOk)
  {
    if e.tag.None? then false
    else if !e.releaseExists && !e.createOk then false
    else e.uploadOk
  }

  /** What a helper call yields in the source: a boolean, or a NameError for the undefined `logger`. */
  datatype Verdict = Answer(value: bool) | LoggerNameError

  /** is_valid_tiff as written: its outer error path logs through the undefined global `logger`. */
  function IsValidTiffAsWritten(p: TiffProbe): (v: Verdict)
    ensures v.LoggerNameError? <==> p.size.None? || (p.size.value >= 1000000 && p.header.None?)
    ensures v.Answer? ==> v.value == IsValidTiff(p)
  {
    if p.size.None? then LoggerNameError
    else if p.size.value < 1000000 then Answer(false)
    else if p.header.None? then LoggerNameError
    else Answer(IsValidTiff(p))
  }

  /**
   * upload_to_github_release as written: creating a release logs through the
   * undefined `logger`, and so do a failed upload and the exception handler
   * (reached when there is no tag); the NameError of the handler escapes.
   */
  function UploadAsWritten(e: UploadEnv): (v: Verdict)
    ensures v == Answer(true) || v == LoggerNameError
    ensures v == Answer(true) <==> Upload(e) && e.releaseExists
  {
    if e.tag.None? then LoggerNameError
    else if !e.releaseExists then LoggerNameError
    else if e.uploadOk then Answer(true)
    else LoggerNameError
  }

  /** As written the upload never answers False: it succeeds or aborts the whole run. */
  lemma UploadNeverFailsQuietlyAsWritten(e: UploadEnv)
    ensures UploadAsWritten(e) != Answer(false)
    ensures !Upload(e) ==> UploadAsWritten(e) == LoggerNameError
  {
  }

  /**
   * The script as written agrees with the intended upload wherever it answers
   * at all: it answers only when the release already existed, and then with
   * Upload's verdict, which is True.
   */
  lemma UploadAsWrittenAgrees(e: UploadEnv)
    ensures UploadAsWritten(e).Answer? ==> UploadAsWritten(e).value == Upload(e) && e.releaseExists
    ensures e.releaseExists && Upload(e) ==> UploadAsWritten(e) == Answer(Upload(e))
    ensures !e.releaseExists && e.tag.Some? ==> UploadAsWritten(e) == LoggerNameError
  {
  }

  datatype Component = U | V

  /** One forecast day: its offset and the source and target date strings. */
  datatype WindDay = WindDay(offset: int, sourceDate: string, targetDate: string)

  datatype WindItem = WindItem(day: WindDay, hour: nat, pressure: nat, component: Component)

  /** Hours 5 to 21. */
  const WindHours: seq<nat> := seq(17, i => 5 + i)
  const WindPressureLevels: seq<nat> := [500, 600, 700, 800, 900]
  const ItemsPerDay: nat := 170

  /** The files of one day: hour-major, then pressure, U before V. */
  function DayItems(day: WindDay): (items: seq<WindItem>)
    ensures |items| == ItemsPerDay
  {
    seq(ItemsPerDay, k requires 0 <= k < ItemsPerDay =>
      WindItem(day, WindHours[k / 10], WindPressureLevels[(k % 10) / 2], if k % 2 == 0 then U else V))
  }

  function Items(days: seq<WindDay>): (items: seq<WindItem>)
    ensures |items| == |days| * ItemsPerDay
  {
    if days == [] then [] else DayItems(days[0]) + Items(days[1..])
  }

  /** total_files: days x 5 pressure levels x 17 hours x 2 components. */
  lemma TotalFiles(days: seq<WindDay>)
    ensures |Items(days)| == |days| * |WindPressureLevels| * |WindHours| * 2
  {
  }

  /** File number d * 170 + h * 10 + p * 2 + c is component c (U = 0) at hour 5 + h and the p-th level of day d. */
  lemma {:induction false} ItemAt(days: seq<WindDay>, d: nat, h: nat, p: nat, c: nat)
    requires d < |days| && h < 17 && p < 5 && c < 2
    ensures d * ItemsPerDay + h * 10 + p * 2 + c < |Items(days)|
    ensures Items(days)[d * ItemsPerDay + h * 10 + p * 2 + c] ==
      WindItem(days[d], 5 + h, WindPressureLevels[p], if c == 0 then U else V)
    decreases d
  {
    var k := h * 10 + p * 2 + c;
    assert k / 10 == h && (k % 10) / 2 == p && k % 2 == c;
    if d == 0 {
      assert Items(days)[k] == DayItems(days[0])[k];
    } else {
      ItemAt(days[1..], d - 1, h, p, c);
      assert d * ItemsPerDay + k == ItemsPerDay + ((d - 1) * ItemsPerDay + k);
    }
  }

  /** arome_{u|v}_{source}_{target}_{HH}_{pressure}.tiff */
  function WindFileName(item: WindItem): (name: string)
    ensures HasPrefix(name, "arome_") && |name| > 6 && name[6] == (if item.component == U then 'u' else 'v')
    ensures HasPrefix(name, "arome_" + ComponentLetter(item.component) + DateFields(item.day))
    ensures item.hour < 100 ==> var k := 10 + |item.day.sourceDate| + |item.day.targetDate|;
      |name| == k + 8 + |NatToString(item.pressure)| && AllDigits(name[k..k + 2]) && DigitsValue(name[k..k + 2]) == item.hour
    ensures EndsWith(name, "_" + NatToString(item.pressure) + ".tiff")
  {
    var pre := "arome_" + ComponentLetter(item.component) + DateFields(item.day);
    var post := "_" + NatToString(item.pressure) + ".tiff";
    Parts(pre, ZeroPad2(item.hour), post);
    var name := pre + ZeroPad2(item.hour) + post;
    assert name[6] == pre[6];
    name
  }

  function ComponentLetter(c: Component): string {
    if c == U then "u" else "v"
  }

  /** _{source}_{target}_ */
  function DateFields(day: WindDay): string {
    "_" + day.sourceDate + "_" + day.targetDate + "_"
  }

  /** Helper: swapping the one-character field x for y changes nothing else. */
  lemma SwapField(a: string, x: string, y: string, m: string, h: string, p: string)
    requires |x| == 1 && |y| == 1
    ensures var u, v := a + x + m + h + p, a + y + m + h + p;
      |u| == |v| && u[|a|] == x[0] && v[|a|] == y[0] && u[..|a|] == v[..|a|] && u[|a| + 1..] == v[|a| + 1..]
  {
    var u, v := a + x + m + h + p, a + y + m + h + p;
    assert u[..|a|] == a == v[..|a|];
    assert u[|a| + 1..] == m + h + p == v[|a| + 1..];
  }

  /** The U and V files of one (day, hour, pressure) differ only in the component letter. */
  lemma UAndVNames(day: WindDay, hour: nat, pressure: nat)
    ensures var u := WindFileName(WindItem(day, hour, pressure, U));
      var v := WindFileName(WindItem(day, hour, pressure, V));
      |u| == |v| && u[6] == 'u' && v[6] == 'v' && u[..6] == v[..6] && u[7..] == v[7..]
  {
    SwapField("arome_", "u", "v", DateFields(day), ZeroPad2(hour), "_" + NatToString(pressure) + ".tiff");
  }

  /** The per-file oracles: whether the download reported success, what validation sees, what the upload sees. */
  datatype WindEnv = WindEnv(fetched: WindItem -> bool, probe: WindItem -> TiffProbe, upload: WindItem -> UploadEnv)

  /** A file counts when it is downloaded, valid and uploaded. */
  predicate Succeeds(env: WindEnv, item: WindItem) {
    env.fetched(item) && IsValidTiff(env.probe(item)) && Upload(env.upload(item))
  }

  /** The final return rule: everything succeeded, or at least one file did. */
  function DownloadOutcome(successful: nat, total: nat): (ok: bool)
    ensures successful <= total ==> (ok <==> total == 0 || successful > 0)
    ensures successful == total ==> ok
  {
    if successful == total then true
    else if successful > 0 then true
    else false
  }

  /** With at least one file to fetch, the run fails exactly when no file succeeded. */
  lemma OutcomeFailsOnlyWhenNothingSucceeded(successful: nat, total: nat)
    requires 0 < total && successful <= total
    ensures !DownloadOutcome(successful, total) <==> successful == 0
  {
  }

  function FailedPaths(outputDir: string, env: WindEnv, items: seq<WindItem>): (paths: seq<string>)
    ensures |paths| <= |items|
  {
    if items == [] then []
    else
      var last := items[|items| - 1];
      FailedPaths(outputDir, env, items[..|items| - 1])
        + (if Succeeds(env, last) then [] else [PathJoin(outputDir, WindFileName(last))])
  }

  /** Every file either counts as a success or is one of the failed files cleaned up. */
  lemma {:induction false} FailedPathsCount(outputDir: string, env: WindEnv, items: seq<WindItem>)
    ensures |FailedPaths(outputDir, env, items)| + Count(items, (i: WindItem) => Succeeds(env, i)) == |items|
    decreases |items|
  {
    if items != [] {
      var init, last := items[..|items| - 1], items[|items| - 1];
      assert init + [last] == items;
      CountSnoc(init, last, (i: WindItem) => Succeeds(env, i));
      FailedPathsCount(outputDir, env, init);
    }
  }

  /** Items of several days, one day appended. */
  lemma {:induction false} ItemsSnoc(days: seq<WindDay>, day: WindDay)
    ensures Items(days + [day]) == Items(days) + DayItems(day)
    decreases |days|
  {
    if days == [] {
      assert Items([day]) == DayItems(day) + Items([]);
    } else {
      assert (days + [day])[1..] == days[1..] + [day];
      ItemsSnoc(days[1..], day);
    }
  }

  /** File number h * 10 + p * 2 + c of a day is component c (U = 0) at hour 5 + h and the p-th level. */
  lemma DayItemAt(day: WindDay, h: nat, p: nat, c: nat)
    requires h < 17 && p < 5 && c < 2
    ensures h * 10 + p * 2 + c < ItemsPerDay
    ensures DayItems(day)[h * 10 + p * 2 + c] == WindItem(day, 5 + h, WindPressureLevels[p], if c == 0 then U else V)
  {
    var k := h * 10 + p * 2 + c;
    assert k / 10 == h && (k % 10) / 2 == p && k % 2 == c;
  }

  lemma {:induction false} FailedPathsAppend(outputDir: string, env: WindEnv, a: seq<WindItem>, b: seq<WindItem>)
    ensures FailedPaths(outputDir, env, a + b) == FailedPaths(outputDir, env, a) + FailedPaths(outputDir, env, b)
    decreases |b|
  {
    if b == [] {
      assert a + b == a;
    } else {
      var init, last := b[..|b| - 1], b[|b| - 1];
      var tail := if Succeeds(env, last) then [] else [PathJoin(outputDir, WindFileName(last))];
      assert (a + b)[..|a + b| - 1] == a + init && (a + b)[|a + b| - 1] == last;
      assert FailedPaths(outputDir, env, a + b) == FailedPaths(outputDir, env, a + init) + tail;
      assert FailedPaths(outputDir, env, b) == FailedPaths(outputDir, env, init) + tail;
      FailedPathsAppend(outputDir, env, a, init);
    }
  }

  /**
   * download_wind_components (with its helpers' error paths answering
   * False): for each day, hour and pressure, the U file then the V file is
   * downloaded, validated and uploaded; `successful` counts the files for
   * which all three succeed and `removed` lists the failed files, whose
   * leftovers are deleted.
   */
  method DownloadWindComponents(outputDir: string, days: seq<WindDay>, env: WindEnv)
    returns (ok: bool, total: nat, successful: nat, removed: seq<string>)
    ensures total == |days| * ItemsPerDay
    ensures successful == Count(Items(days), (i: WindItem) => Succeeds(env, i))
    ensures removed == FailedPaths(outputDir, env, Items(days))
    ensures successful + |removed| == total
    ensures ok <==> successful == total || successful > 0
  {
    ghost var succ := (i: WindItem) => Succeeds(env, i);
    total := |days| * |WindPressureLevels| * |WindHours| * 2;
    successful, removed := 0, [];
    var d := 0;
    while d < |days|
      invariant 0 <= d <= |days|
      invariant successful == Count(Items(days[..d]), succ)
      invariant removed == FailedPaths(outputDir, env, Items(days[..d]))
    {
      DayStep(outputDir, env, days, d);
      successful, removed := DownloadDay(outputDir, days[d], env, successful, removed);
      d := d + 1;
    }
    assert days[..d] == days;
    FailedPathsCount(outputDir, env, Items(days));
    ok := DownloadOutcome(successful, total);
  }

  /** The files of the first d + 1 days are those of the first d days followed by day d's. */
  lemma DayStep(outputDir: string, env: WindEnv, days: seq<WindDay>, d: nat)
    requires d < |days|
    ensures Count(Items(days[..d + 1]), (i: WindItem) => Succeeds(env, i))
      == Count(Items(days[..d]), (i: WindItem) => Succeeds(env, i)) + Count(DayItems(days[d]), (i: WindItem) => Succeeds(env, i))
    ensures FailedPaths(outputDir, env, Items(days[..d + 1]))
      == FailedPaths(outputDir, env, Items(days[..d])) + FailedPaths(outputDir, env, DayItems(days[d]))
  {
    assert days[..d + 1] == days[..d] + [days[d]];
    ItemsSnoc(days[..d], days[d]);
    CountAppend(Items(days[..d]), DayItems(days[d]), (i: WindItem) => Succeeds(env, i));
    FailedPathsAppend(outputDir, env, Items(days[..d]), DayItems(days[d]));
  }

  /** The hour and pressure loops of one day. */
  method DownloadDay(outputDir: string, day: WindDay, env: WindEnv, successful: nat, removed: seq<string>)
    returns (successful': nat, removed': seq<string>)
    ensures successful' == successful + Count(DayItems(day), (i: WindItem) => Succeeds(env, i))
    ensures removed' == removed + FailedPaths(outputDir, env, DayItems(day))
  {
    var items := DayItems(day);
    ghost var succ := (i: WindItem) => Succeeds(env, i);
    var count, failed := 0, [];
    var k := 0;
    var h := 0;
    while h < |WindHours|
      invariant 0 <= h <= |WindHours| && k == h * 10
      invariant count == Count(items[..k], succ)
      invariant failed == FailedPaths(outputDir, env, items[..k])
    {
      var p := 0;
      while p < |WindPressureLevels|
        invariant 0 <= p <= |WindPressureLevels| && k == h * 10 + p * 2
        invariant count == Count(items[..k], succ)
        invariant failed == FailedPaths(outputDir, env, items[..k])
      {
        count, failed := ProcessPressure(outputDir, env, items, k, count, failed);
        k := k + 2;
        p := p + 1;
      }
      h := h + 1;
    }
    assert items[..k] == items;
    successful', removed' := successful + count, removed + failed;
  }

  /**
   * The U file then the V file of one hour and pressure: items[k] and
   * items[k + 1] of the day (DayItemAt).
   */
  method ProcessPressure(outputDir: string, env: WindEnv, items: seq<WindItem>, k: nat, count: nat, failed: seq<string>)
    returns (count': nat, failed': seq<string>)
    requires k + 2 <= |items|
    requires count == Count(items[..k], (i: WindItem) => Succeeds(env, i))
    requires failed == FailedPaths(outputDir, env, items[..k])
    ensures count' == Count(items[..k + 2], (i: WindItem) => Succeeds(env, i))
    ensures failed' == FailedPaths(outputDir, env, items[..k + 2])
  {
    ghost var succ := (i: WindItem) => Succeeds(env, i);
    count', failed' := ProcessComponent(outputDir, env, items[k], count, failed);
    Advance(items, k, succ, outputDir, env);
    count', failed' := ProcessComponent(outputDir, env, items[k + 1], count', failed');
    Advance(items, k + 1, succ, outputDir, env);
  }

  /** One component: count it when downloaded, valid and uploaded; otherwise delete what was left. */
  method ProcessComponent(outputDir: string, env: WindEnv, item: WindItem, successful: nat, removed: seq<string>)
    returns (successful': nat, removed': seq<string>)
    ensures successful' == successful + (if Succeeds(env, item) then 1 else 0)
    ensures removed' == removed + (if Succeeds(env, item) then [] else [PathJoin(outputDir, WindFileName(item))])
  {
    var path := PathJoin(outputDir, WindFileName(item));
    var success := false;
    if env.fetched(item) {
      if IsValidTiff(env.probe(item)) {
        if Upload(env.upload(item)) {
          success := true;
        }
      }
    }
    successful', removed' := successful, removed;
    if success {
      successful' := successful' + 1;
    } else {
      removed' := removed' + [path];
    }
  }

  /** Extending the processed prefix by one file. */
  lemma Advance(items: seq<WindItem>, k: nat, succ: WindItem -> bool, outputDir: string, env: WindEnv)
    requires k < |items| && succ == ((i: WindItem) => Succeeds(env, i))
    ensures Count(items[..k + 1], succ) == Count(items[..k], succ) + (if Succeeds(env, items[k]) then 1 else 0)
    ensures FailedPaths(outputDir, env, items[..k + 1]) == FailedPaths(outputDir, env, items[..k])
      + (if Succeeds(env, items[k]) then [] else [PathJoin(outputDir, WindFileName(items[k]))])
  {
    assert items[..k + 1] == items[..k] + [items[k]];
    assert items[..k + 1][..k] == items[..k];
    CountSnoc(items[..k], items[k], succ);
  }

  /**
   * One file as written: a NameError from either helper aborts the whole run,
   * which then reports failure.
   */
  function ItemAsWritten(env: WindEnv, item: WindItem): Verdict {
    if !env.fetched(item) then Answer(false)
    else match IsValidTiffAsWritten(env.probe(item))
      case LoggerNameError => LoggerNameError
      case Answer(valid) =>
        if !valid then Answer(false) else UploadAsWritten(env.upload(item))
  }

  /** download_wind_components as written: the first escaping NameError ends the run with False. */
  function DownloadAsWritten(env: WindEnv, items: seq<WindItem>, successful: nat, total: nat): (ok: bool)
    ensures ok ==> forall i :: 0 <= i < |items| ==> ItemAsWritten(env, items[i]).Answer?
    ensures (forall i :: 0 <= i < |items| ==> ItemAsWritten(env, items[i]).Answer?) ==>
      (ok <==> DownloadOutcome(successful + Count(items, (i: WindItem) => ItemAsWritten(env, i) == Answer(true)), total))
    decreases |items|
  {
    if items == [] then DownloadOutcome(successful, total)
    else match ItemAsWritten(env, items[0])
      case LoggerNameError => false
      case Answer(counted) =>
        DownloadAsWritten(env, items[1..], successful + (if counted then 1 else 0), total)
  }

  /**
   * A run whose first upload is refused while every other file succeeds:
   * as written it reports failure, although 169 of its 170 files were
   * uploaded and the return rule asks for success.
   */
  lemma FirstUploadRefusedAbortsRun(day: WindDay)
    ensures var items := Items([day]);
      var env := WindEnv((i: WindItem) => true,
                         (i: WindItem) => TiffProbe(Some(2000000), Some(LittleEndianMagic), NoRasterio),
                         (i: WindItem) => UploadEnv(Some("arome-" + day.sourceDate), true, true, i != items[0]));
      && !DownloadAsWritten(env, items, 0, |items|)
      && Count(items, (i: WindItem) => Succeeds(env, i)) > 0
      && DownloadOutcome(Count(items, (i: WindItem) => Succeeds(env, i)), |items|)
  {
    var items := Items([day]);
    var env := WindEnv((i: WindItem) => true,
                       (i: WindItem) => TiffProbe(Some(2000000), Some(LittleEndianMagic), NoRasterio),
                       (i: WindItem) => UploadEnv(Some("arome-" + day.sourceDate), true, true, i != items[0]));
    var succ := (i: WindItem) => Succeeds(env, i);
    ItemAt([day], 0, 0, 0, 0);
    ItemAt([day], 0, 0, 0, 1);
    assert items[0] != items[1];
    assert succ(items[1]);
    CountPositive(items, succ, 1);
  }
}
