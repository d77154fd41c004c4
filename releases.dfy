/**
 * Release and asset selection of scripts/fetch_latest_release.py. The GitHub
 * API responses are values handed in; everything here is a pure function of
 * them.
 */
module Releases {
  import opened Wrappers
  import opened Text
  import opened Seqs

  /** One entry of a release's `assets` list. */
  datatype Asset = Asset(name: string, browserDownloadUrl: string, size: int, createdAt: string)

  /** A release; `tagName` is None when the JSON object has no 'tag_name' key. */
  datatype Release = Release(tagName: Option<string>, name: string, assets: seq<Asset>)

  /** The record built for each MBTiles asset. */
  datatype MbtilesFile = MbtilesFile(name: string, url: string, size: int, createdAt: string)

  const TagPrefix: string := "arome-"
  const MbtilesSuffix: string := ".mbtiles"

  function FileOf(a: Asset): MbtilesFile {
    MbtilesFile(a.name, a.browserDownloadUrl, a.size, a.createdAt)
  }

  function FilesOf(assets: seq<Asset>): (fs: seq<MbtilesFile>)
    ensures |fs| == |assets|
    ensures forall i :: 0 <= i < |fs| ==> (IsMbtiles(fs[i]) <==> EndsWith(assets[i].name, MbtilesSuffix))
  {
    seq(|assets|, i requires 0 <= i < |assets| => FileOf(assets[i]))
  }

  predicate IsMbtiles(f: MbtilesFile) {
    EndsWith(f.name, MbtilesSuffix)
  }

  /**
   * get_mbtiles_from_release: the assets whose name ends in ".mbtiles", in
   * their original order, each copied to a record of name, url, size and
   * creation time. The three ensures determine the result (see
   * MbtilesFromReleaseExact).
   */
  function MbtilesFromRelease(release: Release): (files: seq<MbtilesFile>)
    ensures IsSubseq(files, FilesOf(release.assets))
    ensures forall i :: 0 <= i < |files| ==> EndsWith(files[i].name, MbtilesSuffix)
    ensures |files| == Count(FilesOf(release.assets), IsMbtiles)
    ensures forall a :: a in release.assets && EndsWith(a.name, MbtilesSuffix) ==> FileOf(a) in files
  {
    var files := Keep(FilesOf(release.assets), IsMbtiles);
    KeepIsSubseq(FilesOf(release.assets), IsMbtiles);
    files
  }

  /** Nothing but the selected assets satisfies the three facts MbtilesFromRelease promises. */
  lemma MbtilesFromReleaseExact(release: Release, files: seq<MbtilesFile>)
    requires IsSubseq(files, FilesOf(release.assets))
    requires forall i :: 0 <= i < |files| ==> EndsWith(files[i].name, MbtilesSuffix)
    requires |files| == Count(FilesOf(release.assets), IsMbtiles)
    ensures files == MbtilesFromRelease(release)
  {
    KeepUnique(files, FilesOf(release.assets), IsMbtiles);
  }

  /** The substring a file name must contain to be at `pressure` hPa: "_" + str(pressure) + ".". */
  function PressureTag(pressure: nat): string {
    "_" + NatToString(pressure) + "."
  }

  /** The substring a file name must contain to be at `hour`: "_" + two-digit hour + "_". */
  function HourTag(hour: nat): string {
    "_" + ZeroPad2(hour) + "_"
  }

  function AtPressure(pressure: nat): MbtilesFile -> bool {
    (f: MbtilesFile) => Contains(f.name, PressureTag(pressure))
  }

  function AtHour(hour: nat): MbtilesFile -> bool {
    (f: MbtilesFile) => Contains(f.name, HourTag(hour))
  }

  /** get_mbtiles_for_pressure: the order-preserving sublist of files at that pressure. */
  function MbtilesForPressure(files: seq<MbtilesFile>, pressure: nat): (r: seq<MbtilesFile>)
    ensures IsSubseq(r, files)
    ensures forall i :: 0 <= i < |r| ==> Contains(r[i].name, PressureTag(pressure))
    ensures forall f :: f in files && Contains(f.name, PressureTag(pressure)) ==> f in r
    ensures |r| == Count(files, AtPressure(pressure))
  {
    KeepIsSubseq(files, AtPressure(pressure));
    Keep(files, AtPressure(pressure))
  }

  /** get_mbtiles_for_hour: the order-preserving sublist of files at that hour. */
  function MbtilesForHour(files: seq<MbtilesFile>, hour: nat): (r: seq<MbtilesFile>)
    ensures IsSubseq(r, files)
    ensures forall i :: 0 <= i < |r| ==> Contains(r[i].name, HourTag(hour))
    ensures forall f :: f in files && Contains(f.name, HourTag(hour)) ==> f in r
    ensures |r| == Count(files, AtHour(hour))
  {
    KeepIsSubseq(files, AtHour(hour));
    Keep(files, AtHour(hour))
  }

  lemma PressureFilterIdempotent(files: seq<MbtilesFile>, pressure: nat)
    ensures MbtilesForPressure(MbtilesForPressure(files, pressure), pressure) == MbtilesForPressure(files, pressure)
  {
    KeepIdempotent(files, AtPressure(pressure));
  }

  lemma HourFilterIdempotent(files: seq<MbtilesFile>, hour: nat)
    ensures MbtilesForHour(MbtilesForHour(files, hour), hour) == MbtilesForHour(files, hour)
  {
    KeepIdempotent(files, AtHour(hour));
  }

  /** Selecting by pressure then hour gives the same list as by hour then pressure. */
  lemma FiltersCommute(files: seq<MbtilesFile>, pressure: nat, hour: nat)
    ensures MbtilesForHour(MbtilesForPressure(files, pressure), hour)
         == MbtilesForPressure(MbtilesForHour(files, hour), pressure)
  {
    KeepCommutes(files, AtPressure(pressure), AtHour(hour));
  }

  predicate HasTag(r: Release, tag: string) {
    r.tagName == Some(tag)
  }

  /** `next((r for r in releases if r.get('tag_name') == tag), None)`, as an index. */
  function FirstWithTag(releases: seq<Release>, tag: string): (k: Option<nat>)
    ensures k.Some? ==> k.value < |releases| && HasTag(releases[k.value], tag)
    ensures k.Some? ==> forall j :: 0 <= j < k.value ==> !HasTag(releases[j], tag)
    ensures k.None? <==> forall j :: 0 <= j < |releases| ==> !HasTag(releases[j], tag)
    decreases |releases|
  {
    if releases == [] then None
    else if HasTag(releases[0], tag) then Some(0)
    else match FirstWithTag(releases[1..], tag)
      case None => None
      case Some(k) => Some(k + 1)
  }

  /**
   * fetch_release_by_date, given the release list the API returned: the first
   * release tagged "arome-" + date, or the ValueError message when none is.
   */
  function FetchReleaseByDate(releases: seq<Release>, date: string): (r: Result<Release, string>)
    ensures r.Ok? ==> HasTag(r.value, TagPrefix + date) && r.value in releases
    ensures r.Ok? ==> exists k :: 0 <= k < |releases| && releases[k] == r.value
                        && forall j :: 0 <= j < k ==> !HasTag(releases[j], TagPrefix + date)
    ensures r.Err? <==> forall j :: 0 <= j < |releases| ==> !HasTag(releases[j], TagPrefix + date)
    ensures r.Err? ==> r.error == "No release found for date: " + date
  {
    match FirstWithTag(releases, TagPrefix + date)
    case None => Err("No release found for date: " + date)
    case Some(k) => Ok(releases[k])
  }

  /** What load_arome_data_for_date returns (the downloads are not modelled). */
  datatype Loaded = Loaded(release: Release, date: string, allMbtiles: seq<MbtilesFile>)

  /**
   * load_arome_data_for_date, given the release list and the latest release
   * the API would return. A date that is None or empty selects the latest
   * release, whose date is its tag with every "arome-" removed; a latest
   * release without a tag is the KeyError the script raises.
   */
  function LoadAromeData(date: Option<string>, releases: seq<Release>, latest: Release): (r: Result<Loaded, string>)
    ensures date.Some? && date.value != "" ==>
      (r.Ok? <==> FetchReleaseByDate(releases, date.value).Ok?)
    ensures r.Ok? && date.Some? && date.value != "" ==>
      r.value.date == date.value && HasTag(r.value.release, TagPrefix + date.value)
    ensures r.Ok? && date.Some? && date.value != "" ==>
      r.value.release == FetchReleaseByDate(releases, date.value).value
    ensures (date.None? || date.value == "") ==>
      (r.Ok? <==> latest.tagName.Some?)
    ensures r.Ok? && (date.None? || date.value == "") ==>
      r.value.release == latest && r.value.date == RemoveAll(latest.tagName.value, TagPrefix)
    ensures r.Ok? ==> r.value.allMbtiles == MbtilesFromRelease(r.value.release)
  {
    if date.Some? && date.value != "" then
      match FetchReleaseByDate(releases, date.value)
      case Err(e) => Err(e)
      case Ok(release) => Ok(Loaded(release, date.value, MbtilesFromRelease(release)))
    else
      match latest.tagName
      case None => Err("tag_name")
      case Some(tag) =>
        Ok(Loaded(latest, RemoveAll(tag, TagPrefix), MbtilesFromRelease(latest)))
  }

  /** The latest release tagged "arome-" + d yields the date d, when d itself holds no "arome-". */
  lemma LatestDateFromTag(releases: seq<Release>, latest: Release, d: string)
    requires latest.tagName == Some(TagPrefix + d)
    requires !Contains(d, TagPrefix)
    ensures LoadAromeData(None, releases, latest).Ok?
    ensures LoadAromeData(None, releases, latest).value.date == d
  {
    RemoveAllTag(TagPrefix, d);
  }
}
