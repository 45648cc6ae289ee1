/**
 * The host-facing half of the program (src/windows.rs): the four WMI record
 * types, the "first record of each query" contract of `fetch`, and the
 * PowerShell version lookup with its three fallback tiers. The registry and the
 * environment are passed in as values instead of being read.
 */
module Windows {
  import opened Wrappers
  import opened Text

  // ---------------------------------------------------------------------------
  // WMI records
  // ---------------------------------------------------------------------------

  type u8 = x: int | 0 <= x < 0x100
  type u16 = x: int | 0 <= x < 0x1_0000
  type u64 = x: int | 0 <= x < 0x1_0000_0000_0000_0000

  /** A row of the `Win32_OperatingSystem` class; memory sizes are in KiB. */
  datatype OperatingSystem = OperatingSystem(
    lastBootUpTime: string,
    freePhysicalMemory: u64,
    version: string,
    caption: string,
    totalVisibleMemorySize: u64)

  /** A row of the `Win32_Processor` class. */
  datatype Processor = Processor(name: string)

  /** A row of the `Win32_VideoController` class. */
  datatype VideoController = VideoController(
    name: string,
    currentHorizontalResolution: u16,
    currentVerticalResolution: u16,
    currentRefreshRate: u8)

  /** A row of the `Win32_LogicalDisk` class; the size is in bytes. */
  datatype LogicalDisk = LogicalDisk(deviceId: string, size: u64)

  /** What `fetch` hands back: one operating-system, processor and video row, and every disk. */
  datatype Info = Info(
    os: OperatingSystem,
    cpu: Processor,
    video: VideoController,
    disks: seq<LogicalDisk>)

  /**
   * The outcome of the four queries, as they come back from WMI: `None` when a
   * query failed, otherwise its rows in the order WMI returned them.
   */
  datatype Queries = Queries(
    os: Option<seq<OperatingSystem>>,
    cpu: Option<seq<Processor>>,
    video: Option<seq<VideoController>>,
    disks: Option<seq<LogicalDisk>>)

  /**
   * `fetch`: keeps the first row of the operating-system, processor and video
   * queries and the whole disk list. A failed query or an empty single-row
   * query makes the program panic, modelled as `None`.
   */
  function Fetch(q: Queries): (r: Option<Info>)
    ensures r.Some? <==>
      && q.os.Some? && |q.os.value| > 0
      && q.cpu.Some? && |q.cpu.value| > 0
      && q.video.Some? && |q.video.value| > 0
      && q.disks.Some?
    ensures r.Some? ==>
      && r.value.os == q.os.value[0]
      && r.value.cpu == q.cpu.value[0]
      && r.value.video == q.video.value[0]
      && r.value.disks == q.disks.value
  {
    match (q.os, q.cpu, q.video, q.disks)
    case (Some(os), Some(cpu), Some(video), Some(disks)) =>
      if |os| > 0 && |cpu| > 0 && |video| > 0 then Some(Info(os[0], cpu[0], video[0], disks)) else None
    case _ => None
  }

  // ---------------------------------------------------------------------------
  // The registry, as a value
  // ---------------------------------------------------------------------------

  /** A registry key: the names of its subkeys as enumerated, and its string values. */
  datatype RegKey = RegKey(subkeys: seq<string>, values: map<string, string>)

  /** `HKEY_LOCAL_MACHINE`: every key that can be opened, by its full path. */
  type Hive = map<string, RegKey>

  const InstalledVersionsPath := "SOFTWARE\\Microsoft\\PowerShellCore\\InstalledVersions"
  const EngineV3Path := "SOFTWARE\\Microsoft\\PowerShell\\3\\PowerShellEngine"
  const EngineV1Path := "SOFTWARE\\Microsoft\\PowerShell\\1\\PowerShellEngine"
  const ModuleDirMarker := "powershell_"
  const PowerShellPrefix := "PowerShell "
  const ConsoleHost := "Console Host"

  /** `open_subkey`: fails (`None`) when the key does not exist. */
  function OpenSubkey(hive: Hive, path: string): Option<RegKey> {
    if path in hive then Some(hive[path]) else None
  }

  /** `get_value`: fails (`None`) when the key has no such string value. */
  function GetValue(key: RegKey, name: string): Option<string> {
    if name in key.values then Some(key.values[name]) else None
  }

  // ---------------------------------------------------------------------------
  // Tier 1: the greatest `SemanticVersion` among the installed PowerShell Core versions
  // ---------------------------------------------------------------------------

  /** The `SemanticVersion` value of one installed-version subkey, or `None` if it cannot be read. */
  function SemanticVersionOf(hive: Hive, guid: string): Option<string> {
    match OpenSubkey(hive, InstalledVersionsPath + "\\" + guid)
    case None => None
    case Some(version) => GetValue(version, "SemanticVersion")
  }

  function SemanticVersions(hive: Hive, guids: seq<string>): (vs: seq<Option<string>>)
    ensures |vs| == |guids|
    ensures forall i :: 0 <= i < |guids| ==> vs[i] == SemanticVersionOf(hive, guids[i])
  {
    if guids == [] then []
    else SemanticVersions(hive, guids[..|guids| - 1]) + [SemanticVersionOf(hive, guids[|guids| - 1])]
  }

  /**
   * The running maximum the lookup keeps: it starts at "" and a readable version
   * replaces it when it is strictly greater in string order. Unreadable entries
   * are skipped.
   */
  function RunningMax(vs: seq<Option<string>>): string
  {
    if vs == [] then ""
    else
      var m := RunningMax(vs[..|vs| - 1]);
      var last := vs[|vs| - 1];
      if last.Some? && LexLess(m, last.value) then last.value else m
  }

  /**
   * The running maximum is the greatest readable version in string order (not
   * in semantic-version order): no readable version is greater, and unless it
   * is "" it is one of them.
   */
  lemma {:induction false} RunningMaxIsGreatest(vs: seq<Option<string>>)
    ensures forall j :: 0 <= j < |vs| && vs[j].Some? ==> !LexLess(RunningMax(vs), vs[j].value)
    ensures RunningMax(vs) == "" || exists j :: 0 <= j < |vs| && vs[j] == Some(RunningMax(vs))
  {
    if vs != [] {
      var init := vs[..|vs| - 1];
      var m := RunningMax(init);
      var last := vs[|vs| - 1];
      RunningMaxIsGreatest(init);
      forall j | 0 <= j < |vs| && vs[j].Some?
        ensures !LexLess(RunningMax(vs), vs[j].value)
      {
        if j < |vs| - 1 {
          assert vs[j] == init[j];
          if last.Some? && LexLess(m, last.value) {
            if LexLess(last.value, vs[j].value) {
              LexLessTransitive(m, last.value, vs[j].value);
            }
          }
        } else if last.Some? && !LexLess(m, last.value) {
          LexLessTotal(m, last.value);
          if m == last.value {
            LexLessIrreflexive(m);
          } else {
            LexLessAsymmetric(last.value, m);
          }
        } else if last.Some? {
          LexLessIrreflexive(last.value);
        }
      }
      if RunningMax(vs) != "" && RunningMax(vs) == m {
        var j :| 0 <= j < |init| && init[j] == Some(m);
        assert vs[j] == init[j];
      }
    }
  }

  /**
   * Tier 1 as a value: `None` when the InstalledVersions key cannot be opened
   * or no subkey yields a non-empty running maximum.
   */
  function InstalledVersionsTier(hive: Hive): (r: Option<string>)
    ensures r.Some? ==> InstalledVersionsPath in hive && r.value != ""
  {
    match OpenSubkey(hive, InstalledVersionsPath)
    case None => None
    case Some(installed) =>
      var latest := RunningMax(SemanticVersions(hive, installed.subkeys));
      if latest == "" then None else Some(latest)
  }

  /**
   * Tier 1 answers with the `SemanticVersion` of some installed subkey, and no
   * installed subkey has a greater one in string order.
   */
  lemma InstalledVersionsTierIsGreatest(hive: Hive)
    requires InstalledVersionsTier(hive).Some?
    ensures InstalledVersionsPath in hive
    ensures var guids := hive[InstalledVersionsPath].subkeys;
      && (exists j :: 0 <= j < |guids| && SemanticVersionOf(hive, guids[j]) == InstalledVersionsTier(hive))
      && (forall j :: 0 <= j < |guids| && SemanticVersionOf(hive, guids[j]).Some? ==>
            !LexLess(InstalledVersionsTier(hive).value, SemanticVersionOf(hive, guids[j]).value))
  {
    var guids := hive[InstalledVersionsPath].subkeys;
    var vs := SemanticVersions(hive, guids);
    RunningMaxIsGreatest(vs);
    var j :| 0 <= j < |vs| && vs[j] == Some(RunningMax(vs));
    assert SemanticVersionOf(hive, guids[j]) == InstalledVersionsTier(hive);
  }

  /**
   * Tier 1 answers whenever the InstalledVersions key exists and some installed
   * subkey has a readable, non-empty `SemanticVersion`.
   */
  lemma InstalledVersionsTierAnswers(hive: Hive, j: nat)
    requires InstalledVersionsPath in hive && j < |hive[InstalledVersionsPath].subkeys|
    requires var v := SemanticVersionOf(hive, hive[InstalledVersionsPath].subkeys[j]); v.Some? && v.value != ""
    ensures InstalledVersionsTier(hive).Some?
  {
    var guids := hive[InstalledVersionsPath].subkeys;
    var vs := SemanticVersions(hive, guids);
    RunningMaxIsGreatest(vs);
    assert vs[j].Some? && vs[j].value != "";
    assert LexLess("", vs[j].value);
  }

  // ---------------------------------------------------------------------------
  // Tier 2: the version tag in a `PSModulePath` entry
  // ---------------------------------------------------------------------------

  /**
   * The path-segment scan: the first segment containing "powershell_" decides,
   * giving the piece after its first '_' (when it has at least two pieces).
   */
  function FirstTaggedVersion(paths: seq<string>): Option<string>
  {
    if paths == [] then None
    else if Contains(paths[0], ModuleDirMarker) && |Split(paths[0], '_')| > 1 then Some(Split(paths[0], '_')[1])
    else FirstTaggedVersion(paths[1..])
  }

  /** A segment that contains "powershell_" always has a second `_`-piece. */
  lemma TaggedSegmentSplits(path: string)
    requires Contains(path, ModuleDirMarker)
    ensures |Split(path, '_')| >= 2
  {
    ContainsChar(path, ModuleDirMarker, 10);
    SplitAtLeastTwo(path, '_');
  }

  /**
   * The scan finds nothing exactly when no segment contains "powershell_";
   * otherwise its answer comes from the first segment that does.
   */
  lemma {:induction false} FirstTaggedVersionSpec(paths: seq<string>)
    ensures FirstTaggedVersion(paths).None? <==>
      forall k :: 0 <= k < |paths| ==> !Contains(paths[k], ModuleDirMarker)
    ensures FirstTaggedVersion(paths).Some? ==>
      exists j :: 0 <= j < |paths| && Contains(paths[j], ModuleDirMarker)
        && (forall k :: 0 <= k < j ==> !Contains(paths[k], ModuleDirMarker))
        && |Split(paths[j], '_')| >= 2
        && FirstTaggedVersion(paths).value == Split(paths[j], '_')[1]
  {
    if paths != [] {
      FirstTaggedVersionSpec(paths[1..]);
      if Contains(paths[0], ModuleDirMarker) {
        TaggedSegmentSplits(paths[0]);
      } else {
        assert forall k :: 1 <= k < |paths| ==> paths[k] == paths[1..][k - 1];
        if FirstTaggedVersion(paths).Some? {
          var j :| 0 <= j < |paths[1..]| && Contains(paths[1..][j], ModuleDirMarker)
            && (forall k :: 0 <= k < j ==> !Contains(paths[1..][k], ModuleDirMarker))
            && |Split(paths[1..][j], '_')| >= 2
            && FirstTaggedVersion(paths[1..]).value == Split(paths[1..][j], '_')[1];
          assert paths[j + 1] == paths[1..][j];
        }
      }
    }
  }

  /** Tier 2 as a value: skipped when `PSModulePath` is unset; the value is lowercased and split on ';'. */
  function ModulePathTier(psModulePath: Option<string>): (r: Option<string>)
    ensures psModulePath.None? ==> r.None?
  {
    match psModulePath
    case None => None
    case Some(v) => FirstTaggedVersion(Split(Lowercase(v), ';'))
  }

  // ---------------------------------------------------------------------------
  // Tier 3: the legacy Windows PowerShell engine key
  // ---------------------------------------------------------------------------

  /**
   * `fetch_legacy_ps_version`: the `RunTimeVersion` of the `\3\PowerShellEngine`
   * key, else of the `\1\PowerShellEngine` key. The argument of `unwrap_or` is
   * evaluated first and its `?` returns early, so without the `\1` key the
   * lookup fails even when the `\3` key exists.
   */
  function FetchLegacyPsVersion(hive: Hive): (r: Option<string>)
    ensures EngineV1Path !in hive ==> r.None?
    ensures EngineV1Path in hive && EngineV3Path in hive ==> r == GetValue(hive[EngineV3Path], "RunTimeVersion")
    ensures EngineV1Path in hive && EngineV3Path !in hive ==> r == GetValue(hive[EngineV1Path], "RunTimeVersion")
  {
    match OpenSubkey(hive, EngineV1Path)
    case None => None
    case Some(v1) =>
      var regkey := match OpenSubkey(hive, EngineV3Path) case Some(v3) => v3 case None => v1;
      GetValue(regkey, "RunTimeVersion")
  }

  /** A hive with a readable `\3` engine key and no `\1` key still yields no legacy version. */
  lemma EagerFallbackLosesV3()
    ensures var hive := map[EngineV3Path := RegKey([], map["RunTimeVersion" := "3.0"])];
      FetchLegacyPsVersion(hive) == None
  {
    assert EngineV1Path != EngineV3Path by {
      assert EngineV1Path[30] != EngineV3Path[30];
    }
  }

  // ---------------------------------------------------------------------------
  // The whole lookup
  // ---------------------------------------------------------------------------

  /** A reported version starts with "PowerShell " and so is never "Console Host". */
  lemma PrefixedVersion(v: string)
    ensures StartsWith(PowerShellPrefix + v, PowerShellPrefix)
    ensures PowerShellPrefix + v != ConsoleHost
  {
    assert (PowerShellPrefix + v)[..|PowerShellPrefix|] == PowerShellPrefix;
    assert (PowerShellPrefix + v)[0] != ConsoleHost[0];
  }

  /**
   * `fetch_latest_ps_version` as a value: the first tier with an answer decides,
   * and "Console Host" is the answer only when none has one.
   */
  function LatestPsVersion(hive: Hive, psModulePath: Option<string>): (r: string)
    ensures StartsWith(r, PowerShellPrefix) != (r == ConsoleHost)
    ensures r == ConsoleHost <==>
      InstalledVersionsTier(hive).None? && ModulePathTier(psModulePath).None? && FetchLegacyPsVersion(hive).None?
    ensures InstalledVersionsTier(hive).Some? ==> r == PowerShellPrefix + InstalledVersionsTier(hive).value
    ensures InstalledVersionsTier(hive).None? && ModulePathTier(psModulePath).Some? ==>
      r == PowerShellPrefix + ModulePathTier(psModulePath).value
    ensures InstalledVersionsTier(hive).None? && ModulePathTier(psModulePath).None? && FetchLegacyPsVersion(hive).Some? ==>
      r == PowerShellPrefix + FetchLegacyPsVersion(hive).value
  {
    match InstalledVersionsTier(hive)
    case Some(v) => PrefixedVersion(v); PowerShellPrefix + v
    case None =>
      match ModulePathTier(psModulePath)
      case Some(v) => PrefixedVersion(v); PowerShellPrefix + v
      case None =>
        match FetchLegacyPsVersion(hive)
        case Some(v) => PrefixedVersion(v); PowerShellPrefix + v
        case None =>
          assert ConsoleHost[0] != PowerShellPrefix[0];
          ConsoleHost
  }

  /**
   * The first half of `fetch_latest_ps_version`, step by step: the running
   * maximum over the `SemanticVersion` of every installed subkey.
   */
  method ScanInstalledVersions(hive: Hive) returns (latest: Option<string>)
    ensures latest == InstalledVersionsTier(hive)
  {
    if InstalledVersionsPath !in hive {
      return None;
    }
    var installedVersions := hive[InstalledVersionsPath];
    var keys := installedVersions.subkeys;
    var latestVersion := "";
    for i := 0 to |keys|
      invariant latestVersion == RunningMax(SemanticVersions(hive, keys[..i]))
    {
      var semanticVersion := SemanticVersionOf(hive, keys[i]);
      ghost var seen := SemanticVersions(hive, keys[..i + 1]);
      assert keys[..i + 1][..i] == keys[..i];
      assert seen == SemanticVersions(hive, keys[..i]) + [semanticVersion];
      assert seen[..i] == SemanticVersions(hive, keys[..i]);
      if semanticVersion.Some? && LexLess(latestVersion, semanticVersion.value) {
        latestVersion := semanticVersion.value;
      }
    }
    assert keys[..|keys|] == keys;
    if latestVersion != "" {
      return Some(latestVersion);
    }
    return None;
  }

  /**
   * The `PSModulePath` scan, step by step: the value is lowercased and split on
   * ';', and the first segment containing "powershell_" with a second '_'-piece
   * ends the scan.
   */
  method ScanModulePath(psModulePath: Option<string>) returns (version: Option<string>)
    ensures version == ModulePathTier(psModulePath)
  {
    if psModulePath.None? {
      return None;
    }
    var lowercased := Lowercase(psModulePath.value);
    var paths := Split(lowercased, ';');
    for i := 0 to |paths|
      invariant FirstTaggedVersion(paths[i..]) == FirstTaggedVersion(paths)
    {
      assert paths[i..][1..] == paths[i + 1..];
      var path := paths[i];
      if Contains(path, ModuleDirMarker) {
        var pieces := Split(path, '_');
        if |pieces| > 1 {
          return Some(pieces[1]);
        }
      }
    }
    return None;
  }

  /**
   * `fetch_latest_ps_version`, step by step: the installed versions, then the
   * `PSModulePath` segments, then the legacy key, each consulted only when the
   * one before has no answer.
   */
  method FetchLatestPsVersion(hive: Hive, psModulePath: Option<string>) returns (shell: string)
    ensures shell == LatestPsVersion(hive, psModulePath)
  {
    var installed := ScanInstalledVersions(hive);
    if installed.Some? {
      return PowerShellPrefix + installed.value;
    }
    var tagged := ScanModulePath(psModulePath);
    if tagged.Some? {
      return PowerShellPrefix + tagged.value;
    }
    match FetchLegacyPsVersion(hive) {
      case Some(v) => shell := PowerShellPrefix + v;
      case None => shell := ConsoleHost;
    }
  }
}
