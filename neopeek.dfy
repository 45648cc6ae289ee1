/**
 * The `display` routine of src/main.rs: it turns the WMI records, the shell
 * version and the elapsed time since boot into an eleven-row fact table, places
 * that table beside one of two ASCII-art blocks, and writes one output line per
 * art line. Output is modelled as the sequence of lines written; the panics the
 * routine can hit before writing anything are modelled as `Err`.
 */
module Neopeek {
  import opened Wrappers
  import opened Text
  import opened Windows

  // ---------------------------------------------------------------------------
  // Constants
  // ---------------------------------------------------------------------------

  /** ANSI styling written around the facts: bold, the blue of labels and rules, the pink of values, reset. */
  const Bold := "\U{1B}[1m"
  const Blue := "\U{1B}[38;2;137;187;234m"
  const Pink := "\U{1B}[38;2;224;155;187m"
  const Reset := "\U{1B}[0m"

  /** The rule character, as the source literally spells it (an em dash decoded with the wrong code page). */
  const Dash := "\U{E2}\U{20AC}\U{201D}"

  /** A terminal with more lines than this gets the full art block, otherwise the mini one. */
  const TallTerminalLines := 37

  /** The width the colour legend is centred against. */
  const LegendWidth := 24

  const KiBPerMiB := 1024
  const BytesPerGiB := 1073741824

  /** The labels of the eleven rows, in order: username header, rule, then the facts. */
  const Labels: seq<string> := ["", "", "OS", "Kernel", "Shell", "Resolution", "Uptime", "CPU", "GPU", "Memory", "Disk"]

  // ---------------------------------------------------------------------------
  // Data
  // ---------------------------------------------------------------------------

  /** One `(key, value)` entry of the fact table. */
  datatype Fact = Fact(key: string, value: string)

  /** Why `display` stops before writing any line. */
  datatype Panic =
    | FetchFailed          // a WMI query failed or returned no row
    | BootTimeTooShort     // the boot timestamp is shorter than the 4 characters cut off its end
    | BootTimeUnparsable   // the remaining timestamp does not parse as a date and time
    | MemoryUnderflow      // more free memory than total memory
    | ArtTooShort          // fewer art lines than fact rows
    | NoRoomAboveFacts     // the tall-terminal upward shift is larger than the room above the facts
    | LegendUnderflow      // the content is narrower than the colour legend

  /** Everything `display` reads from the machine, as values. */
  datatype Host = Host(
    computerName: Option<string>,   // the COMPUTERNAME environment variable
    psModulePath: Option<string>,   // the PSModulePath environment variable
    hive: Hive,                     // HKEY_LOCAL_MACHINE
    queries: Queries,               // the four WMI query results
    arch: string,                   // the target architecture name the program was built for
    terminalLines: nat)             // the terminal height

  /** The two art blocks and the colour legend. */
  datatype Art = Art(full: seq<string>, mini: seq<string>, colors: string)

  /** Where the fact table goes and how wide it is. */
  datatype Layout = Layout(start: nat, maxKeyLen: nat, maxLength: nat, padding: nat, colorPadding: nat)

  // ---------------------------------------------------------------------------
  // The values of the fact table
  // ---------------------------------------------------------------------------

  /** The lowercased COMPUTERNAME, or "null" when it is unset. */
  function Username(computerName: Option<string>): (r: string)
    ensures computerName.None? ==> r == "null"
    ensures computerName.Some? ==> |r| == |computerName.value|
    ensures computerName.Some? ==> forall i :: 0 <= i < |r| ==> !('A' <= r[i] <= 'Z')
    ensures computerName.Some? ==> r == Lowercase(computerName.value)
  {
    match computerName
    case Some(name) => Lowercase(name)
    case None => "null"
  }

  /** The caption and the architecture, separated by one blank. */
  function OsValue(os: OperatingSystem, arch: string): string {
    os.caption + " " + arch
  }

  /** "<width>x<height> @ <rate>Hz". */
  function ResolutionValue(v: VideoController): string {
    var width := NatToString(v.currentHorizontalResolution);
    width + ("x" + NatToString(v.currentVerticalResolution) + " @ " + NatToString(v.currentRefreshRate) + "Hz")
  }

  /** Integer division rounding toward zero, as Rust's `/` on `i64`. */
  function TruncDiv(a: int, b: int): int
    requires b > 0
  {
    if a >= 0 then a / b else -((-a) / b)
  }

  /** The remainder of `TruncDiv`, as Rust's `%` on `i64`: it takes the sign of `a`. */
  function TruncRem(a: int, b: int): (r: int)
    requires b > 0
    ensures a == TruncDiv(a, b) * b + r
    ensures a >= 0 ==> 0 <= r < b
    ensures a < 0 ==> -b < r <= 0
  {
    if a >= 0 then a % b else -((-a) % b)
  }

  /** The hours and the minutes-past-the-hour of a duration given in whole seconds. */
  function UptimeHours(seconds: int): (r: int)
    ensures seconds >= 0 ==> 0 <= r && r * 3600 <= seconds < r * 3600 + 3600
    ensures seconds < 0 ==> r <= 0 && r * 3600 - 3600 < seconds <= r * 3600
  {
    TruncDiv(seconds, 3600)
  }

  function UptimeMinutes(seconds: int): (r: int)
    ensures seconds >= 0 ==> 0 <= r < 60
    ensures seconds < 0 ==> -60 < r <= 0
  {
    TruncRem(TruncDiv(seconds, 60), 60)
  }

  /** "<h> hours, <m> minutes": never shorter than "0 hours, 0 minutes". */
  function UptimeValue(seconds: int): (r: string)
    ensures |r| >= 18
  {
    IntToString(UptimeHours(seconds)) + " hours, " + IntToString(UptimeMinutes(seconds)) + " minutes"
  }

  /** "<used> MiB / <total> MiB"; `free <= total` is where the source's `u64` subtraction would panic. */
  function MemoryValue(os: OperatingSystem): string
    requires os.freePhysicalMemory <= os.totalVisibleMemorySize
  {
    var used := NatToString((os.totalVisibleMemorySize - os.freePhysicalMemory) / KiBPerMiB);
    used + (" MiB / " + NatToString(os.totalVisibleMemorySize / KiBPerMiB) + " MiB")
  }

  /** "(<id>) <n> GiB": the device id in parentheses, then the size in whole GiB. */
  function DiskFragment(d: LogicalDisk): string {
    "(" + d.deviceId + ") " + NatToString(d.size / BytesPerGiB) + " GiB"
  }

  // What the value texts say: every number in them reads back from its digits.

  /** The OS text is the caption, one blank, then the architecture name. */
  lemma OsValueParts(os: OperatingSystem, arch: string)
    ensures var r := OsValue(os, arch);
      && |r| == |os.caption| + 1 + |arch|
      && r[..|os.caption|] == os.caption && r[|os.caption|] == ' ' && r[|os.caption| + 1..] == arch
  {
  }

  /** The resolution text is "<w>x<h> @ <f>Hz" with the width, the height and the refresh rate in decimal. */
  lemma ResolutionValueReadsBack(v: VideoController)
    ensures exists w, h, f ::
      && ResolutionValue(v) == w + ("x" + h + " @ " + f + "Hz")
      && IsDecimalText(w) && ParseDecimal(w) == v.currentHorizontalResolution
      && IsDecimalText(h) && ParseDecimal(h) == v.currentVerticalResolution
      && IsDecimalText(f) && ParseDecimal(f) == v.currentRefreshRate
  {
    var w := NatToString(v.currentHorizontalResolution);
    var h := NatToString(v.currentVerticalResolution);
    var f := NatToString(v.currentRefreshRate);
    DecimalRoundTrip(v.currentHorizontalResolution);
    DecimalRoundTrip(v.currentVerticalResolution);
    DecimalRoundTrip(v.currentRefreshRate);
    assert IsDecimalText(w) && IsDecimalText(h) && IsDecimalText(f);
    assert ResolutionValue(v) == w + ("x" + h + " @ " + f + "Hz");
  }

  /** The uptime text is "<h> hours, <m> minutes" with `UptimeHours` and `UptimeMinutes` in signed decimal. */
  lemma UptimeValueReadsBack(seconds: int)
    ensures exists h, m ::
      && UptimeValue(seconds) == h + " hours, " + m + " minutes"
      && IsIntText(h) && ParseInt(h) == UptimeHours(seconds)
      && IsIntText(m) && ParseInt(m) == UptimeMinutes(seconds)
  {
    var h := IntToString(UptimeHours(seconds));
    var m := IntToString(UptimeMinutes(seconds));
    IntRoundTrip(UptimeHours(seconds));
    IntRoundTrip(UptimeMinutes(seconds));
    assert UptimeValue(seconds) == h + " hours, " + m + " minutes";
  }

  /** The memory text is "<u> MiB / <t> MiB": the used MiB (total less free) and the total MiB, in decimal. */
  lemma MemoryValueReadsBack(os: OperatingSystem)
    requires os.freePhysicalMemory <= os.totalVisibleMemorySize
    ensures exists u, t ::
      && MemoryValue(os) == u + (" MiB / " + t + " MiB")
      && IsDecimalText(u) && ParseDecimal(u) == (os.totalVisibleMemorySize - os.freePhysicalMemory) / KiBPerMiB
      && IsDecimalText(t) && ParseDecimal(t) == os.totalVisibleMemorySize / KiBPerMiB
  {
    var u := NatToString((os.totalVisibleMemorySize - os.freePhysicalMemory) / KiBPerMiB);
    var t := NatToString(os.totalVisibleMemorySize / KiBPerMiB);
    DecimalRoundTrip((os.totalVisibleMemorySize - os.freePhysicalMemory) / KiBPerMiB);
    DecimalRoundTrip(os.totalVisibleMemorySize / KiBPerMiB);
    assert IsDecimalText(u) && IsDecimalText(t);
    assert MemoryValue(os) == u + (" MiB / " + t + " MiB");
  }

  /** A disk fragment is "(<id>) <g> GiB": the device id, then the size divided by 2^30 and truncated, in decimal. */
  lemma DiskFragmentReadsBack(d: LogicalDisk)
    ensures exists g ::
      && DiskFragment(d) == "(" + d.deviceId + ") " + g + " GiB"
      && IsDecimalText(g) && ParseDecimal(g) == d.size / BytesPerGiB
  {
    DecimalRoundTrip(d.size / BytesPerGiB);
  }

  function DiskFragments(disks: seq<LogicalDisk>): (r: seq<string>)
    ensures |r| == |disks|
    ensures forall i :: 0 <= i < |disks| ==> r[i] == DiskFragment(disks[i])
  {
    if disks == [] then [] else [DiskFragment(disks[0])] + DiskFragments(disks[1..])
  }

  function DiskValue(disks: seq<LogicalDisk>): string {
    Join(DiskFragments(disks), " | ")
  }

  /** `a / b / c` rounds toward zero the same way as `a / (b * c)`. */
  lemma {:induction false} TruncDivTwice(a: int)
    ensures TruncDiv(TruncDiv(a, 60), 60) == TruncDiv(a, 3600)
  {
    var n := if a >= 0 then a else -a;
    var q, r := n / 3600, n % 3600;
    assert n == 60 * (60 * q + r / 60) + r % 60;
    assert n / 60 == 60 * q + r / 60;
    assert (n / 60) / 60 == q;
  }

  /**
   * The uptime text shows the whole hours and the minutes past the last whole
   * hour: together they give back the whole minutes, and for a non-negative
   * duration the minutes lie in [0, 60).
   */
  lemma UptimeSplitsMinutes(seconds: int)
    ensures UptimeHours(seconds) * 60 + UptimeMinutes(seconds) == TruncDiv(seconds, 60)
    ensures seconds >= 0 ==> UptimeHours(seconds) >= 0 && 0 <= UptimeMinutes(seconds) < 60
    ensures seconds < 0 ==> UptimeHours(seconds) <= 0 && -60 < UptimeMinutes(seconds) <= 0
  {
    TruncDivTwice(seconds);
  }

  // The decimal texts of the numbers in the two examples below.
  lemma Decimal8192()
    ensures NatToString(8192) == "8192"
  {
  }

  lemma Decimal16384()
    ensures NatToString(16384) == "16384"
  {
  }

  lemma Decimal1920()
    ensures NatToString(1920) == "1920"
  {
  }

  lemma Decimal1080()
    ensures NatToString(1080) == "1080"
  {
  }

  lemma Decimal144()
    ensures NatToString(144) == "144"
  {
  }

  /** 16777216 KiB in all with 8388608 KiB free shows as 8192 MiB used of 16384 MiB. */
  lemma MemoryExample()
    ensures MemoryValue(OperatingSystem("", 8388608, "", "", 16777216)) == "8192 MiB / 16384 MiB"
  {
    Decimal8192();
    Decimal16384();
  }

  /** 1920 by 1080 at 144 Hz shows as "1920x1080 @ 144Hz". */
  lemma ResolutionExample()
    ensures ResolutionValue(VideoController("", 1920, 1080, 144)) == "1920x1080 @ 144Hz"
  {
    Decimal1920();
    Decimal1080();
    Decimal144();
  }

  /**
   * The disk text lists the volumes in query order: a further disk adds one
   * " | " and its own fragment at the end; no disks give "".
   */
  lemma {:induction false} DiskValueAppend(disks: seq<LogicalDisk>, d: LogicalDisk)
    ensures DiskValue([]) == ""
    ensures DiskValue(disks + [d]) == if disks == [] then DiskFragment(d) else DiskValue(disks) + " | " + DiskFragment(d)
  {
    assert DiskFragments(disks + [d]) == DiskFragments(disks) + [DiskFragment(d)];
    JoinSnoc(DiskFragments(disks), DiskFragment(d), " | ");
  }

  /** `n` disks give their `n` fragments and exactly `n - 1` separators. */
  lemma DiskValueLength(disks: seq<LogicalDisk>)
    requires |disks| >= 1
    ensures |DiskValue(disks)| == TotalLength(DiskFragments(disks)) + 3 * (|disks| - 1)
  {
    JoinLength(DiskFragments(disks), " | ");
  }

  /** The eleven entries of the table: each key of `Labels` paired with its value, built from the records, the username, the shell and the uptime. */
  function FactTable(username: string, info: Info, arch: string, shell: string, seconds: int): (t: seq<Fact>)
    requires info.os.freePhysicalMemory <= info.os.totalVisibleMemorySize
    ensures |t| == |Labels|
    ensures forall i :: 0 <= i < |t| ==> t[i].key == Labels[i]
    ensures t[0].value == username && t[1].value == ""
    ensures t[4].value == shell && |t[6].value| >= 18
  {
    var values := FactValues(username, info, arch, shell, seconds);
    seq(|Labels|, i requires 0 <= i < |Labels| => Fact(Labels[i], values[i]))
  }

  /** The eleven values of the table, in the order of `Labels`. */
  function FactValues(username: string, info: Info, arch: string, shell: string, seconds: int): (v: seq<string>)
    requires info.os.freePhysicalMemory <= info.os.totalVisibleMemorySize
    ensures |v| == 11
    ensures v[0] == username && v[1] == ""
    ensures v[4] == shell && |v[6]| >= 18
  {
    var os := OsValue(info.os, arch);
    var resolution := ResolutionValue(info.video);
    var uptime := UptimeValue(seconds);
    var memory := MemoryValue(info.os);
    var disk := DiskValue(info.disks);
    [username, "", os, info.os.version, shell, resolution, uptime, info.cpu.name, info.video.name, memory, disk]
  }

  /**
   * Which value sits beside which label: OS the caption and architecture,
   * Kernel the OS version, Resolution, Uptime, Memory and Disk their texts,
   * CPU the processor name and GPU the video controller name.
   */
  lemma FactTableRows(username: string, info: Info, arch: string, shell: string, seconds: int)
    requires info.os.freePhysicalMemory <= info.os.totalVisibleMemorySize
    ensures var t := FactTable(username, info, arch, shell, seconds);
      && t[2] == Fact("OS", OsValue(info.os, arch))
      && t[3] == Fact("Kernel", info.os.version)
      && t[5] == Fact("Resolution", ResolutionValue(info.video))
      && t[6] == Fact("Uptime", UptimeValue(seconds))
      && t[7] == Fact("CPU", info.cpu.name)
      && t[8] == Fact("GPU", info.video.name)
      && t[9] == Fact("Memory", MemoryValue(info.os))
      && t[10] == Fact("Disk", DiskValue(info.disks))
  {
  }

  /**
   * Lines 20-75 of `display` once the records are fetched: the boot timestamp
   * loses its last four characters (the UTC offset) before `elapsedSince`
   * parses it and measures the time since then in whole seconds; then the
   * memory text needs `free <= total`; then the table is built.
   */
  function Collect(info: Info, username: string, arch: string, shell: string, elapsedSince: string -> Option<int>)
    : (r: Result<seq<Fact>, Panic>)
    ensures r.Err? ==> r.error in {BootTimeTooShort, BootTimeUnparsable, MemoryUnderflow}
    ensures r == Err(BootTimeTooShort) <==> |info.os.lastBootUpTime| < 4
    ensures r == Err(BootTimeUnparsable) <==>
      && var stamp := info.os.lastBootUpTime;
      && |stamp| >= 4
      && elapsedSince(stamp[..|stamp| - 4]).None?
    ensures r == Err(MemoryUnderflow) <==>
      && var stamp := info.os.lastBootUpTime;
      && |stamp| >= 4
      && elapsedSince(stamp[..|stamp| - 4]).Some?
      && info.os.freePhysicalMemory > info.os.totalVisibleMemorySize
    ensures r.Ok? <==>
      && var stamp := info.os.lastBootUpTime;
      && |stamp| >= 4
      && elapsedSince(stamp[..|stamp| - 4]).Some?
      && info.os.freePhysicalMemory <= info.os.totalVisibleMemorySize
    ensures r.Ok? ==>
      && var stamp := info.os.lastBootUpTime;
      && |stamp| >= 4
      && elapsedSince(stamp[..|stamp| - 4]).Some?
      && info.os.freePhysicalMemory <= info.os.totalVisibleMemorySize
      && r.value == FactTable(username, info, arch, shell, elapsedSince(stamp[..|stamp| - 4]).value)
  {
    var stamp := info.os.lastBootUpTime;
    if |stamp| < 4 then Err(BootTimeTooShort)
    else
      match elapsedSince(stamp[..|stamp| - 4])
      case None => Err(BootTimeUnparsable)
      case Some(seconds) =>
        if info.os.freePhysicalMemory > info.os.totalVisibleMemorySize then Err(MemoryUnderflow)
        else Ok(FactTable(username, info, arch, shell, seconds))
  }

  /**
   * Lines 15-75 of `display`: the username, the WMI records, the uptime, the
   * shell version and the table, or the panic that stops it.
   */
  function Facts(host: Host, elapsedSince: string -> Option<int>): (r: Result<seq<Fact>, Panic>)
    ensures r.Err? ==> r.error in {FetchFailed, BootTimeTooShort, BootTimeUnparsable, MemoryUnderflow}
    ensures r.Ok? <==>
      && Fetch(host.queries).Some?
      && var os := Fetch(host.queries).value.os;
      && |os.lastBootUpTime| >= 4
      && elapsedSince(os.lastBootUpTime[..|os.lastBootUpTime| - 4]).Some?
      && os.freePhysicalMemory <= os.totalVisibleMemorySize
    ensures r == Err(FetchFailed) <==> Fetch(host.queries).None?
    ensures r == Err(BootTimeTooShort) <==>
      Fetch(host.queries).Some? && |Fetch(host.queries).value.os.lastBootUpTime| < 4
    ensures r.Ok? ==>
      && |r.value| == |Labels|
      && (forall i :: 0 <= i < |r.value| ==> r.value[i].key == Labels[i])
      && r.value[0].value == Username(host.computerName)
      && r.value[4].value == LatestPsVersion(host.hive, host.psModulePath)
    ensures r == Err(BootTimeUnparsable) <==>
      && Fetch(host.queries).Some?
      && var stamp := Fetch(host.queries).value.os.lastBootUpTime;
      && |stamp| >= 4
      && elapsedSince(stamp[..|stamp| - 4]).None?
    ensures r == Err(MemoryUnderflow) <==>
      && Fetch(host.queries).Some?
      && var os := Fetch(host.queries).value.os;
      && |os.lastBootUpTime| >= 4
      && elapsedSince(os.lastBootUpTime[..|os.lastBootUpTime| - 4]).Some?
      && os.freePhysicalMemory > os.totalVisibleMemorySize
    ensures r.Ok? ==>
      && Fetch(host.queries).Some?
      && var info := Fetch(host.queries).value;
      && var stamp := info.os.lastBootUpTime;
      && |stamp| >= 4
      && elapsedSince(stamp[..|stamp| - 4]).Some?
      && info.os.freePhysicalMemory <= info.os.totalVisibleMemorySize
      && r.value == FactTable(Username(host.computerName), info, host.arch,
           LatestPsVersion(host.hive, host.psModulePath), elapsedSince(stamp[..|stamp| - 4]).value)
  {
    match Fetch(host.queries)
    case None => Err(FetchFailed)
    case Some(info) =>
      Collect(info, Username(host.computerName), host.arch, LatestPsVersion(host.hive, host.psModulePath), elapsedSince)
  }

  // ---------------------------------------------------------------------------
  // Layout
  // ---------------------------------------------------------------------------

  function Max(a: int, b: int): int {
    if a >= b then a else b
  }

  /** The longest key, 0 for no entries. */
  function MaxKeyLen(t: seq<Fact>): (m: nat)
    ensures forall k :: 0 <= k < |t| ==> |t[k].key| <= m
    ensures t == [] ==> m == 0
    ensures t != [] ==> exists k :: 0 <= k < |t| && |t[k].key| == m
  {
    if t == [] then 0
    else
      var rest := MaxKeyLen(t[1..]);
      assert forall k :: 1 <= k < |t| ==> t[k] == t[1..][k - 1];
      Max(|t[0].key|, rest)
  }

  /** The widest row: key column, one blank and the value; 0 for no entries. */
  function MaxLength(t: seq<Fact>, keyLen: nat): (m: nat)
    ensures forall k :: 0 <= k < |t| ==> keyLen + 1 + |t[k].value| <= m
    ensures t == [] ==> m == 0
    ensures t != [] ==> exists k :: 0 <= k < |t| && keyLen + 1 + |t[k].value| == m
  {
    if t == [] then 0
    else
      var rest := MaxLength(t[1..], keyLen);
      assert forall k :: 1 <= k < |t| ==> t[k] == t[1..][k - 1];
      Max(keyLen + 1 + |t[0].value|, rest)
  }

  /** How far the table moves up in the full art block. */
  function Adjustment(term: bool, rows: nat): nat {
    if term then Max(rows, 9) - 9 else 0
  }

  /** The widths of `l` are the ones measured from `t`, and the paddings are half the slack. */
  ghost predicate WellFormed(l: Layout, t: seq<Fact>)
    requires |t| >= 1
  {
    && l.maxKeyLen == MaxKeyLen(t)
    && l.maxLength == MaxLength(t, l.maxKeyLen)
    && |t[0].value| <= l.maxLength
    && l.padding == (l.maxLength - |t[0].value|) / 2
    && LegendWidth <= l.maxLength
    && l.colorPadding == (l.maxLength - LegendWidth) / 2
  }

  /**
   * Lines 76-91 of `display`: the first row of the table and the widths. The
   * `usize` subtractions that would wrap are panics. The header padding never
   * underflows, because the username is itself a value of the table.
   */
  function ComputeLayout(term: bool, asciiLen: nat, t: seq<Fact>): (r: Result<Layout, Panic>)
    requires |t| >= 1
    ensures asciiLen < |t| ==> r == Err(ArtTooShort)
    ensures asciiLen >= |t| && (asciiLen - |t|) / 2 < Adjustment(term, |t|) ==> r == Err(NoRoomAboveFacts)
    ensures asciiLen >= |t| && (asciiLen - |t|) / 2 >= Adjustment(term, |t|) ==>
      (r == Err(LegendUnderflow) <==> MaxLength(t, MaxKeyLen(t)) < LegendWidth)
    ensures r.Err? ==> r.error in {ArtTooShort, NoRoomAboveFacts, LegendUnderflow}
    ensures r.Ok? <==>
      asciiLen >= |t| && (asciiLen - |t|) / 2 >= Adjustment(term, |t|) && LegendWidth <= MaxLength(t, MaxKeyLen(t))
    ensures r.Ok? ==> WellFormed(r.value, t)
    ensures r.Ok? ==> r.value.start == (asciiLen - |t|) / 2 - Adjustment(term, |t|)
    ensures r.Ok? ==> r.value.start + |t| <= asciiLen
    ensures r.Ok? ==> |t[0].value| < r.value.maxLength
  {
    if asciiLen < |t| then Err(ArtTooShort)
    else if (asciiLen - |t|) / 2 < Adjustment(term, |t|) then Err(NoRoomAboveFacts)
    else
      var start := (asciiLen - |t|) / 2 - Adjustment(term, |t|);
      var maxKeyLen := MaxKeyLen(t);
      var maxLength := MaxLength(t, maxKeyLen);
      assert maxKeyLen + 1 + |t[0].value| <= maxLength;
      var padding := (maxLength - |t[0].value|) / 2;
      if maxLength < LegendWidth then Err(LegendUnderflow)
      else Ok(Layout(start, maxKeyLen, maxLength, padding, (maxLength - LegendWidth) / 2))
  }

  // ---------------------------------------------------------------------------
  // The lines written
  // ---------------------------------------------------------------------------

  /** The row of the table that sits beside art line `i`, if any. */
  predicate InTable(i: nat, l: Layout, rows: nat) {
    l.start <= i < l.start + rows
  }

  /** The first row of the table: the username, centred by `padding` blanks, after an '@'. */
  function HeaderLine(line: string, username: string, l: Layout): (r: string)
    ensures StartsWith(r, line)
  {
    line + "  " + Spaces(l.padding) + Bold + Blue + "@" + TrimEnd(username)
  }

  /** The second row of the table: the rule. */
  function RuleLine(line: string, l: Layout): (r: string)
    ensures StartsWith(r, line)
  {
    line + "  " + Bold + Blue + Repeat(Dash, l.maxLength)
  }

  /** A fact row: the label, blanks up to the label column width, " : " and the trimmed value. */
  function FactLine(line: string, fact: Fact, l: Layout): (r: string)
    requires |fact.key| <= l.maxKeyLen
    ensures StartsWith(r, line)
  {
    line + "  " + Bold + Blue + fact.key + Reset + Spaces(l.maxKeyLen - |fact.key|)
      + " " + Blue + ": " + Pink + TrimEnd(fact.value)
  }

  /** The colour legend, centred against the content width. */
  function LegendLine(line: string, l: Layout, colors: string): (r: string)
    ensures StartsWith(r, line)
  {
    line + Spaces(l.colorPadding + 4) + colors
  }

  /** Line `i` of the output: art line `line`, followed by what the table puts beside it. */
  function Row(i: nat, line: string, t: seq<Fact>, l: Layout, colors: string): (r: string)
    requires |t| >= 1 && WellFormed(l, t)
    ensures StartsWith(r, line)
  {
    if InTable(i, l, |t|) then
      if i == l.start then HeaderLine(line, t[0].value, l)
      else if i == l.start + 1 then RuleLine(line, l)
      else FactLine(line, t[i - l.start], l)
    else if i == l.start + |t| + 1 then LegendLine(line, l, colors)
    else line
  }

  /** Where the ':' of every fact row sits, counted from the end of the art line. */
  function SeparatorOffset(l: Layout): nat {
    2 + |Bold| + |Blue| + l.maxKeyLen + |Reset| + 1 + |Blue|
  }

  /** A fact row puts its ':' at the same offset from the art line, whatever its label. */
  lemma FactLineSeparator(line: string, fact: Fact, l: Layout)
    requires |fact.key| <= l.maxKeyLen
    ensures |line| + SeparatorOffset(l) < |FactLine(line, fact, l)|
    ensures FactLine(line, fact, l)[|line| + SeparatorOffset(l)] == ':'
  {
    var pad := Spaces(l.maxKeyLen - |fact.key|);
    var labelled := line + "  " + Bold + Blue + fact.key + Reset + pad + " " + Blue;
    var tail := ": " + Pink + TrimEnd(fact.value);
    assert FactLine(line, fact, l) == labelled + tail;
    assert |labelled| == |line| + SeparatorOffset(l);
  }

  /** A fact row shows its label right after the art line, the two blanks and the styling. */
  lemma FactLineKey(line: string, fact: Fact, l: Layout)
    requires |fact.key| <= l.maxKeyLen
    ensures |line| + 2 + |Bold| + |Blue| + |fact.key| <= |FactLine(line, fact, l)|
    ensures FactLine(line, fact, l)[|line| + 2 + |Bold| + |Blue|..][..|fact.key|] == fact.key
  {
    var styled := line + "  " + Bold + Blue;
    var keyed := styled + fact.key;
    assert keyed <= FactLine(line, fact, l);
    KeyAfterStyling(styled, fact.key, FactLine(line, fact, l));
  }

  /**
   * The gaps of a fact row are blanks: two after the art line, and after the
   * key and the reset, enough to pad the key to the key width, plus one more.
   */
  lemma FactLineBlanks(line: string, fact: Fact, l: Layout)
    requires |fact.key| <= l.maxKeyLen
    ensures var r := FactLine(line, fact, l);
      var gap := |line| + 2 + |Bold| + |Blue| + |fact.key| + |Reset|;
      && gap + l.maxKeyLen - |fact.key| + 1 <= |r|
      && r[|line|] == ' ' && r[|line| + 1] == ' '
      && forall k :: gap <= k < gap + l.maxKeyLen - |fact.key| + 1 ==> r[k] == ' '
  {
    var front := line + "  " + Bold + Blue + fact.key + Reset;
    var blanks := Spaces(l.maxKeyLen - |fact.key|) + " ";
    var rest := Blue + ": " + Pink + TrimEnd(fact.value);
    assert FactLine(line, fact, l) == front + blanks + rest;
    assert forall k :: 0 <= k < |blanks| ==> blanks[k] == ' ';
  }

  /** A fact row ends with the value, trailing whitespace removed. */
  lemma FactLineValue(line: string, fact: Fact, l: Layout)
    requires |fact.key| <= l.maxKeyLen
    ensures |TrimEnd(fact.value)| <= |FactLine(line, fact, l)|
    ensures var r := FactLine(line, fact, l); r[|r| - |TrimEnd(fact.value)|..] == TrimEnd(fact.value)
  {
    var front := line + "  " + Bold + Blue + fact.key + Reset + Spaces(l.maxKeyLen - |fact.key|) + " " + Blue + ": " + Pink;
    assert FactLine(line, fact, l) == front + TrimEnd(fact.value);
    ConcatSuffix(front, TrimEnd(fact.value));
  }

  lemma ConcatSuffix(a: string, b: string)
    ensures (a + b)[|a|..] == b
  {
  }

  lemma KeyAfterStyling(styled: string, key: string, r: string)
    requires styled + key <= r
    ensures |styled| + |key| <= |r| && r[|styled|..][..|key|] == key
  {
    assert r[|styled|..][..|key|] == (styled + key)[|styled|..];
  }

  /**
   * Every fact row is its label padded with blanks to the label column width,
   * then " : " and the trimmed value, so the ':' of all fact rows is at the same
   * offset from the art line, and the row ends with the trimmed value.
   */
  lemma FactRowAligned(i: nat, line: string, t: seq<Fact>, l: Layout, colors: string)
    requires |t| >= 1 && WellFormed(l, t)
    requires InTable(i, l, |t|) && i >= l.start + 2
    ensures var r := Row(i, line, t, l, colors);
      && |line| + SeparatorOffset(l) < |r|
      && r[|line| + SeparatorOffset(l)] == ':'
      && r[|line| + 2 + |Bold| + |Blue|..][..|t[i - l.start].key|] == t[i - l.start].key
      && r[|r| - |TrimEnd(t[i - l.start].value)|..] == TrimEnd(t[i - l.start].value)
  {
    var fact := t[i - l.start];
    assert Row(i, line, t, l, colors) == FactLine(line, fact, l);
    FactLineSeparator(line, fact, l);
    FactLineKey(line, fact, l);
    FactLineValue(line, fact, l);
  }

  /** The header row starts with its art line, then two and `padding` more blanks before the styling. */
  lemma HeaderLineBlanks(line: string, username: string, l: Layout)
    ensures var r := HeaderLine(line, username, l);
      && |line| + 2 + l.padding <= |r|
      && forall k :: |line| <= k < |line| + 2 + l.padding ==> r[k] == ' '
  {
    var blanks := "  " + Spaces(l.padding);
    assert HeaderLine(line, username, l) == line + blanks + (Bold + Blue + "@" + TrimEnd(username));
    assert forall k :: 0 <= k < |blanks| ==> blanks[k] == ' ';
  }

  /** The legend row is the art line, `colorPadding + 4` blanks, then the colour legend. */
  lemma LegendLineParts(line: string, l: Layout, colors: string)
    ensures var r := LegendLine(line, l, colors);
      && |r| == |line| + l.colorPadding + 4 + |colors|
      && (forall k :: |line| <= k < |line| + l.colorPadding + 4 ==> r[k] == ' ')
      && r[|line| + l.colorPadding + 4..] == colors
  {
    var r := LegendLine(line, l, colors);
    assert r[|line| + l.colorPadding + 4..] == colors;
  }

  /**
   * The first row of the table is the username after `padding` blanks and an
   * '@'; `padding` is half the room the username leaves in the content width.
   * The second row is the rule: `maxLength` copies of the dash.
   */
  lemma HeaderRows(line0: string, line1: string, t: seq<Fact>, l: Layout, colors: string)
    requires |t| >= 2 && WellFormed(l, t)
    ensures var r := Row(l.start, line0, t, l, colors);
      && |line0| + 2 + l.padding + |Bold| + |Blue| < |r|
      && r[|line0| + 2 + l.padding + |Bold| + |Blue|] == '@'
      && r[|line0| + 2 + l.padding + |Bold| + |Blue| + 1..] == TrimEnd(t[0].value)
      && 2 * l.padding + |t[0].value| <= l.maxLength
    ensures var r := Row(l.start + 1, line1, t, l, colors);
      && r[|line1| + 2 + |Bold| + |Blue|..] == Repeat(Dash, l.maxLength)
      && |r| == |line1| + 2 + |Bold| + |Blue| + 3 * l.maxLength
  {
    var r := Row(l.start, line0, t, l, colors);
    var at := line0 + "  " + Spaces(l.padding) + Bold + Blue;
    assert r == at + "@" + TrimEnd(t[0].value);
    assert |at| == |line0| + 2 + l.padding + |Bold| + |Blue|;
    var r1 := Row(l.start + 1, line1, t, l, colors);
    assert r1 == (line1 + "  " + Bold + Blue) + Repeat(Dash, l.maxLength);
    assert |Dash| == 3;
  }

  /** The lines `display` writes, one per art line. */
  function Rows(lines: seq<string>, t: seq<Fact>, l: Layout, colors: string): (out: seq<string>)
    requires |t| >= 1 && WellFormed(l, t)
    ensures |out| == |lines|
    ensures forall i :: 0 <= i < |lines| ==> out[i] == Row(i, lines[i], t, l, colors)
  {
    seq(|lines|, i requires 0 <= i < |lines| => Row(i, lines[i], t, l, colors))
  }

  /**
   * The `for i in 0..ascii_len` loop of `display`: writes one line per art
   * line, choosing among header, rule, fact row, legend and bare art line.
   */
  method Render(lines: seq<string>, t: seq<Fact>, l: Layout, colors: string) returns (out: seq<string>)
    requires |t| >= 1 && WellFormed(l, t)
    ensures |out| == |lines|
    ensures forall i :: 0 <= i < |lines| ==> StartsWith(out[i], lines[i])
    ensures out == Rows(lines, t, l, colors)
  {
    out := [];
    for i := 0 to |lines|
      invariant |out| == i
      invariant forall k :: 0 <= k < i ==> out[k] == Row(k, lines[k], t, l, colors)
    {
      var line := lines[i];
      var written: string;
      if i >= l.start && i < l.start + |t| {
        var value := t[i - l.start];
        if i == l.start {
          written := HeaderLine(line, value.value, l);
        } else if i == l.start + 1 {
          written := RuleLine(line, l);
        } else {
          written := FactLine(line, value, l);
        }
      } else {
        if i == l.start + |t| + 1 {
          written := LegendLine(line, l, colors);
        } else {
          written := line;
        }
      }
      out := out + [written];
    }
  }

  // ---------------------------------------------------------------------------
  // The whole routine
  // ---------------------------------------------------------------------------

  /** `display` as a value: the lines it writes, or the panic that stops it before the first. */
  function Outcome(host: Host, art: Art, elapsedSince: string -> Option<int>): (r: Result<seq<string>, Panic>)
    ensures var lines := if host.terminalLines > TallTerminalLines then art.full else art.mini;
      r.Ok? ==> |r.value| == |lines| && forall i :: 0 <= i < |lines| ==> StartsWith(r.value[i], lines[i])
    ensures Facts(host, elapsedSince).Err? ==> r == Err(Facts(host, elapsedSince).error)
  {
    match Facts(host, elapsedSince)
    case Err(p) => Err(p)
    case Ok(t) =>
      var term := host.terminalLines > TallTerminalLines;
      Place(term, if term then art.full else art.mini, t, art.colors)
  }

  /** Lines 76-142 of `display`: the layout of the table beside the art block, then one line per art line. */
  function Place(term: bool, lines: seq<string>, t: seq<Fact>, colors: string): (r: Result<seq<string>, Panic>)
    requires |t| >= 1
    ensures r.Ok? ==> |r.value| == |lines| && forall i :: 0 <= i < |lines| ==> StartsWith(r.value[i], lines[i])
    ensures r.Err? <==> ComputeLayout(term, |lines|, t).Err?
    ensures r.Err? ==> r.error == ComputeLayout(term, |lines|, t).error
    ensures r.Ok? ==> r.value == Rows(lines, t, ComputeLayout(term, |lines|, t).value, colors)
  {
    match ComputeLayout(term, |lines|, t)
    case Err(p) => Err(p)
    case Ok(l) => Ok(Rows(lines, t, l, colors))
  }

  /** `display`, step by step, with the two lookups and the render loop as methods. */
  method Display(host: Host, art: Art, elapsedSince: string -> Option<int>) returns (r: Result<seq<string>, Panic>)
    ensures r == Outcome(host, art, elapsedSince)
  {
    var username := Username(host.computerName);
    var fetched := Fetch(host.queries);
    if fetched.None? {
      return Err(FetchFailed);
    }
    var info := fetched.value;
    var stamp := info.os.lastBootUpTime;
    if |stamp| < 4 {
      return Err(BootTimeTooShort);
    }
    var uptime := elapsedSince(stamp[..|stamp| - 4]);
    if uptime.None? {
      return Err(BootTimeUnparsable);
    }
    var shell := FetchLatestPsVersion(host.hive, host.psModulePath);
    if info.os.freePhysicalMemory > info.os.totalVisibleMemorySize {
      return Err(MemoryUnderflow);
    }
    var arr := FactTable(username, info, host.arch, shell, uptime.value);
    var term := host.terminalLines > TallTerminalLines;
    var lines := if term then art.full else art.mini;
    var layout := ComputeLayout(term, |lines|, arr);
    if layout.Err? {
      return Err(layout.error);
    }
    var out := Render(lines, arr, layout.value, art.colors);
    return Ok(out);
  }

  // ---------------------------------------------------------------------------
  // What the routine guarantees
  // ---------------------------------------------------------------------------

  /**
   * For the table `display` builds, the label column is 10 wide ("Resolution")
   * and the content at least 29 wide (the uptime text has at least 18
   * characters), so neither the header nor the legend padding underflows. The
   * layout then fails only for an art block under 11 lines, or, in a tall
   * terminal, one with fewer than 2 spare lines above the table; otherwise the
   * table starts at (ascii_len - 11) / 2, less 2 in a tall terminal.
   */
  lemma FactTableLayout(t: seq<Fact>, term: bool, asciiLen: nat)
    requires |t| == |Labels| && (forall i :: 0 <= i < |t| ==> t[i].key == Labels[i])
    requires |t[6].value| >= 18
    ensures MaxKeyLen(t) == 10
    ensures MaxLength(t, 10) >= 29
    ensures ComputeLayout(term, asciiLen, t).Ok? <==>
      asciiLen >= 11 && (asciiLen - 11) / 2 >= (if term then 2 else 0)
    ensures ComputeLayout(term, asciiLen, t).Ok? ==>
      ComputeLayout(term, asciiLen, t).value.start == (asciiLen - 11) / 2 - (if term then 2 else 0)
  {
    var m := MaxKeyLen(t);
    assert |t[5].key| == |"Resolution"| == 10;
    forall i | 0 <= i < |t| ensures |t[i].key| <= 10 {
      assert t[i].key == Labels[i];
    }
    var k :| 0 <= k < |t| && |t[k].key| == m;
    assert MaxLength(t, 10) >= 10 + 1 + |t[6].value|;
    assert Adjustment(term, 11) == if term then 2 else 0;
  }

  /** The uptime row of a collected table is never shorter than "0 hours, 0 minutes". */
  lemma FactsUptimeRow(host: Host, elapsedSince: string -> Option<int>)
    requires Facts(host, elapsedSince).Ok?
    ensures |Facts(host, elapsedSince).value[6].value| >= 18
  {
    var info := Fetch(host.queries).value;
    var c := Collect(info, Username(host.computerName), host.arch, LatestPsVersion(host.hive, host.psModulePath), elapsedSince);
    assert Facts(host, elapsedSince) == c;
  }


  /**
   * `display` fails exactly when collecting the facts fails or the chosen art
   * block is too short for the table; the legend padding never underflows.
   */
  lemma DisplayFailures(host: Host, art: Art, elapsedSince: string -> Option<int>)
    ensures var lines := if host.terminalLines > TallTerminalLines then art.full else art.mini;
      Outcome(host, art, elapsedSince).Err? <==>
        || Facts(host, elapsedSince).Err?
        || |lines| < 11
        || (host.terminalLines > TallTerminalLines && (|lines| - 11) / 2 < 2)
    ensures Outcome(host, art, elapsedSince) != Err(LegendUnderflow)
    ensures Outcome(host, art, elapsedSince) == Err(FetchFailed) <==> Fetch(host.queries).None?
  {
    var r := Outcome(host, art, elapsedSince);
    match Facts(host, elapsedSince)
    case Err(p) =>
      assert r == Err(p);
    case Ok(t) =>
      var term := host.terminalLines > TallTerminalLines;
      var lines := if term then art.full else art.mini;
      FactsUptimeRow(host, elapsedSince);
      FactTableLayout(t, term, |lines|);
      var c := ComputeLayout(term, |lines|, t);
      assert c.Ok? || c == Err(ArtTooShort) || c == Err(NoRoomAboveFacts);
      assert r == if c.Ok? then Ok(Rows(lines, t, c.value, art.colors)) else Err(c.error);
  }

  /**
   * The lines written beside an art block that holds the whole table: one per
   * art line, each beginning with it; the header and the rule on the first two
   * table lines; the ':' of every fact row in the same column; the colour
   * legend on the second line below the table, written only when that line
   * exists; every other line the bare art line.
   */
  lemma RowsLayout(lines: seq<string>, t: seq<Fact>, l: Layout, colors: string)
    requires |t| >= 2 && WellFormed(l, t) && l.start + |t| <= |lines|
    ensures var out := Rows(lines, t, l, colors);
      && |out| == |lines|
      && (forall i :: 0 <= i < |lines| ==> StartsWith(out[i], lines[i]))
      && out[l.start] == HeaderLine(lines[l.start], t[0].value, l)
      && out[l.start + 1] == RuleLine(lines[l.start + 1], l)
      && (forall i :: l.start + 2 <= i < l.start + |t| ==>
            |lines[i]| + SeparatorOffset(l) < |out[i]| && out[i][|lines[i]| + SeparatorOffset(l)] == ':')
      && (forall i :: 0 <= i < |lines| && !InTable(i, l, |t|) ==>
            out[i] == if i == l.start + |t| + 1 then LegendLine(lines[i], l, colors) else lines[i])
  {
    var out := Rows(lines, t, l, colors);
    forall i | l.start + 2 <= i < l.start + |t|
      ensures |lines[i]| + SeparatorOffset(l) < |out[i]| && out[i][|lines[i]| + SeparatorOffset(l)] == ':'
    {
      FactRowAligned(i, lines[i], t, l, colors);
    }
  }

  /**
   * When `display` succeeds, what it writes is `Rows` of the chosen art block
   * (the full block in a terminal of more than 37 lines, else the mini one) for
   * the eleven-row table, with the table starting at (ascii_len - 11) / 2, less
   * 2 in a tall terminal, and ending inside the block. So there is exactly one
   * line per art line, and `RowsLayout` describes every one of them.
   */
  lemma DisplayLayout(host: Host, art: Art, elapsedSince: string -> Option<int>)
    ensures Outcome(host, art, elapsedSince).Ok? ==> Facts(host, elapsedSince).Ok?
    ensures Outcome(host, art, elapsedSince).Ok? ==>
      var term := host.terminalLines > TallTerminalLines;
      var lines := if term then art.full else art.mini;
      var t := Facts(host, elapsedSince).value;
      && |t| == 11
      && t[0].value == Username(host.computerName)
      && ComputeLayout(term, |lines|, t).Ok?
      && var l := ComputeLayout(term, |lines|, t).value;
      && WellFormed(l, t)
      && l.start == (|lines| - 11) / 2 - (if term then 2 else 0)
      && l.start + 11 <= |lines|
      && Outcome(host, art, elapsedSince).value == Rows(lines, t, l, art.colors)
  {
    if Facts(host, elapsedSince).Ok? {
      var term := host.terminalLines > TallTerminalLines;
      var lines := if term then art.full else art.mini;
      FactsUptimeRow(host, elapsedSince);
      FactTableLayout(Facts(host, elapsedSince).value, term, |lines|);
    }
  }
}
