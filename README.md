# neopeek, modelled in Dafny

neopeek prints a block of facts about a Windows machine beside an ASCII-art logo. The facts are the OS, kernel version, PowerShell version, display resolution, uptime, CPU, GPU, memory use and disk volumes. This project models the two host-independent parts of the program and proves properties of them:

- **The `display` routine** (`src/main.rs`). It builds an eleven-entry `(key, value)` table: a username header, a rule, then OS, Kernel, Shell, Resolution, Uptime, CPU, GPU, Memory and Disk. Each value comes from integer arithmetic and string concatenation over the WMI records. The routine then computes where the table starts and how wide it is, and writes one line per art line. Each line is the header, the rule, an aligned fact row, the colour legend, or the bare art line.
  - Module `Neopeek`.
  - The value table and the widths are functions.
  - The render loop is the method `Render`, proved against the function `Rows`.
  - The whole routine is the method `Display`, proved against the function `Outcome`.
- **The PowerShell version lookup** (`src/windows.rs`). It tries three sources in order:
  1. the string-greatest `SemanticVersion` among the installed PowerShell Core versions in the registry;
  2. the first `PSModulePath` segment containing `powershell_`;
  3. the legacy `PowerShellEngine` registry key.

  If none answers, the result is `"Console Host"`.
  - Module `Windows`.
  - The running-maximum loop and the early-returning segment scan are the methods `ScanInstalledVersions` and `ScanModulePath`. Each is proved against the function for its tier. The method `FetchLatestPsVersion` combines them and is proved against the function `LatestPsVersion`.
  - The same module holds the four WMI record types and the "first row of each query" contract of `fetch`.

Module `Text` models the parts of Rust's standard library the program uses: decimal formatting, `repeat`, `join`, `split`, `contains`, `to_lowercase` (ASCII letters only), `trim_end` (Rust's exact whitespace set) and the order on `String`. Module `Wrappers` holds `Option` and `Result`.

Inputs that the program reads from the machine are parameters:

- the WMI query results, each a list of records or a failure;
- `HKEY_LOCAL_MACHINE`, as a map from key path to subkey names and string values;
- the `COMPUTERNAME` and `PSModulePath` variables;
- the target architecture name;
- the terminal height;
- the two art blocks and the colour legend;
- a function that parses the boot timestamp and returns the whole seconds elapsed since then (it stands for the clock).

Every panic `display` can hit happens before it writes anything. Each one is an `Err` of `Outcome`:

- a failed or empty query;
- a boot timestamp shorter than 4 characters;
- an unparsable timestamp;
- free memory above total memory;
- an art block too short for the table;
- the `usize` underflows of the layout.

Two facts that the code relies on without saying so are proved:

- The header padding can never underflow, because the username is itself one of the table's values.
- The legend padding `max_length - 24` never underflows for the table `display` builds. The uptime text has at least 18 characters and the longest key ("Resolution") has 10, so `max_length >= 29`.

The program writes exactly `ascii_len` lines, and the whole table always fits inside the art block.

The legacy lookup at `src/windows.rs:94-101` is modelled as written. The argument of `unwrap_or` is evaluated before the call, and its `?` returns early. So when the `\1\PowerShellEngine` key is missing, the lookup fails even if the `\3\PowerShellEngine` key exists. `EagerFallbackLosesV3` exhibits such a registry.

## Model

| member | source | states |
|---|---|---|
| `Windows.Fetch` | src/windows.rs:35-40 | The result exists exactly when all four queries succeeded and the OS, processor and video queries each returned a row. It holds the first row of each of those three and the whole disk list in query order. |
| `Windows.OpenSubkey` | src/windows.rs:48 | No contract of its own. `open_subkey` gives the key stored at the path, or nothing when there is none. `FetchLegacyPsVersion` and the tier-1 lemmas are stated in its terms. |
| `Windows.GetValue` | src/windows.rs:58 | No contract of its own. `get_value` gives the named string value of the key, or nothing when it is missing. `FetchLegacyPsVersion` and the tier-1 lemmas are stated in its terms. |
| `Windows.SemanticVersionOf` | src/windows.rs:57-59 | No contract of its own. It is the `SemanticVersion` string of the subkey `InstalledVersions\<guid>`, or nothing when the subkey or the value is missing. The two tier-1 lemmas below are stated in its terms. |
| `Windows.SemanticVersions` | src/windows.rs:56-59 | One entry per subkey name, in enumeration order. Entry `i` is the `SemanticVersion` read for subkey `i`, or nothing. |
| `Windows.RunningMax` | src/windows.rs:55-66 | No contract of its own. It starts at "" and takes a readable version only when that version is strictly greater in string order. `RunningMaxIsGreatest` characterises it. |
| `Windows.RunningMaxIsGreatest` | src/windows.rs:55-66 | The running maximum that starts at "" and is replaced only by a strictly greater readable version is the greatest readable version in string order. It is "" or one of the versions. |
| `Windows.InstalledVersionsTierIsGreatest` | src/windows.rs:48-70 | When tier 1 answers, its answer is the `SemanticVersion` of some installed subkey. No readable subkey has a greater one in lexicographic (not semantic-version) order. |
| `Windows.InstalledVersionsTier` | src/windows.rs:48-70 | An answer means the InstalledVersions key exists and the answer is not empty. The two lemmas around this row characterise it in both directions. |
| `Windows.InstalledVersionsTierAnswers` | src/windows.rs:48-70 | The converse: when the InstalledVersions key exists and some installed subkey has a readable, non-empty `SemanticVersion`, tier 1 answers. |
| `Windows.FirstTaggedVersion` | src/windows.rs:76-83 | No contract of its own. It is the scan over the segments, and `FirstTaggedVersionSpec` characterises it. |
| `Windows.ModulePathTier` | src/windows.rs:72-86 | An unset `PSModulePath` gives no answer. For a set one, the body scans the lowercased value split on ';' with `FirstTaggedVersion`, which `FirstTaggedVersionSpec` characterises. |
| `Windows.TaggedSegmentSplits` | src/windows.rs:77-81 | A segment containing "powershell_" always splits on '_' into at least two pieces, so the `len() > 1` guard always holds. |
| `Windows.FirstTaggedVersionSpec` | src/windows.rs:74-83 | The segment scan finds nothing exactly when no segment contains "powershell_". Otherwise its answer is the second '_'-piece of the first segment that contains it. |
| `Windows.FetchLegacyPsVersion` | src/windows.rs:94-101 | No `\1` engine key gives no version, whatever `\3` holds. With both keys, `RunTimeVersion` is read from `\3`. With only `\1`, it is read from `\1`. |
| `Windows.EagerFallbackLosesV3` | src/windows.rs:95-99 | A registry with a readable `\3` engine key and no `\1` key yields no legacy version. |
| `Windows.PrefixedVersion` | src/windows.rs:68 | A version reported as `format!("PowerShell {}", v)` starts with "PowerShell " and so is never "Console Host". |
| `Windows.LatestPsVersion` | src/windows.rs:47-92 | The result starts with "PowerShell " or is "Console Host", never both. "Console Host" comes exactly when all three tiers have no answer. A later tier decides only when every earlier tier has no answer. An unset `PSModulePath` skips tier 2. |
| `Windows.ScanInstalledVersions` | src/windows.rs:48-70 | The loop that keeps the running maximum over the installed subkeys returns exactly tier 1, `InstalledVersionsTier`. |
| `Windows.ScanModulePath` | src/windows.rs:72-86 | The early-returning scan over the lowercased, ';'-split `PSModulePath` returns exactly tier 2, `ModulePathTier`. |
| `Windows.FetchLatestPsVersion` | src/windows.rs:47-92 | Consulting the two scans and then the legacy key, each only when the one before has no answer, returns exactly the three-tier result `LatestPsVersion`. |
| `Text.LexLess` | src/windows.rs:61 | No contract of its own. It is the lexicographic order on code points that `>` on `String` uses. The four lemmas below show it is a strict total order. |
| `Text.LexLessIrreflexive` | src/windows.rs:61 | No string comes before itself. |
| `Text.LexLessTransitive` | src/windows.rs:61 | The string order used by `>` is transitive. |
| `Text.LexLessTotal` | src/windows.rs:61 | Any two different strings are ordered one way or the other. |
| `Text.LexLessAsymmetric` | src/windows.rs:61 | If `a` comes before `b`, then `b` does not come before `a`. |
| `Text.Lowercase` | src/windows.rs:74 | Lowercasing keeps the length and leaves no ASCII capital. Exactly the ASCII capitals change, and each becomes its small letter (its code plus 32). |
| `Text.Split` | src/windows.rs:75 | `split` always yields at least one piece. The round-trip lemmas below pin the pieces down. |
| `Text.SplitJoin` | src/windows.rs:75 | Joining the pieces of `split(c)` with `c` gives back the original string. |
| `Text.SplitPiecesFree` | src/windows.rs:75 | No piece of `split(c)` contains `c`. |
| `Text.JoinSplit` | src/windows.rs:75 | Splitting parts joined by a separator they do not contain gives the parts back. |
| `Text.Contains` | src/windows.rs:77 | No contract of its own. `ContainsAt` characterises it. |
| `Text.ContainsAt` | src/windows.rs:77 | `contains` holds exactly when the pattern occurs at some position. |
| `Text.SplitAtFirst` | src/windows.rs:78-80 | The first piece is the text before the first separator. The pieces of the text after it follow, so the second piece is the text between the first and second separator. |
| `Text.NatToString` | src/main.rs:56-62 | `{}` formatting of an unsigned number gives a non-empty run of decimal digits, with no leading zero, and 0 gives "0". |
| `Text.IntToString` | src/main.rs:46-50 | `{}` formatting of a signed number is non-empty and starts with '-' exactly for a negative number. `IntRoundTrip` shows the text reads back to the number. |
| `Text.IntRoundTrip` | src/main.rs:46-50 | The text of a signed number is well formed (an optional '-', then digits without a leading zero, and no "-0") and `ParseInt` reads it back to the number. |
| `Text.DecimalRoundTrip` | src/main.rs:56-62 | The decimal text of a number parses back to that number. |
| `Text.TrimEnd` | src/main.rs:125 | The result is the longest prefix that does not end in whitespace. Only whitespace was removed. |
| `Text.Join` | src/main.rs:73 | No contract of its own. `JoinSnoc` and `JoinLength` characterise it, and `SplitJoin`/`JoinSplit` pair it with `Split`. |
| `Text.JoinSnoc` | src/main.rs:73 | Joining one more part adds one separator and that part at the end. |
| `Text.JoinLength` | src/main.rs:73 | `n` joined parts hold their own characters plus `n - 1` separators. |
| `Text.Repeat` | src/main.rs:114 | `repeat(n)` is `n` times as long as the string. |
| `Text.Spaces` | src/main.rs:106 | `" ".repeat(n)` is exactly `n` blanks. |
| `Text.RepeatCopy` | src/main.rs:114 | `repeat(n)` consists of `n` copies of the string, copy `i` at offset `i * len`. |
| `Neopeek.Username` | src/main.rs:15-17 | An unset COMPUTERNAME gives "null". A set one gives the name lowercased by `Lowercase`: same length, no ASCII capital left. |
| `Neopeek.OsValue` | src/main.rs:19 | No contract of its own. `OsValueParts` states its parts. |
| `Neopeek.OsValueParts` | src/main.rs:19 | The OS text is the caption, one blank, then the architecture name. |
| `Neopeek.ResolutionValue` | src/main.rs:37-42 | No contract of its own. `ResolutionValueReadsBack` states the whole text. |
| `Neopeek.UptimeHours` | src/main.rs:48 | `num_hours` is the whole hours in the duration, truncated toward zero: `h * 3600 <= s < h * 3600 + 3600` for a non-negative `s`, and symmetrically for a negative one. |
| `Neopeek.TruncDiv` | src/main.rs:48-49 | No contract of its own. It is Rust's `/` on `i64`, rounding toward zero. `TruncRem`, `UptimeHours` and `TruncDivTwice` state its properties. |
| `Neopeek.TruncRem` | src/main.rs:49 | Rust's `%` on `i64`: `a == TruncDiv(a, b) * b + r`, where `r` lies in [0, b) for a non-negative `a` and in (-b, 0] for a negative one, taking the sign of `a`. |
| `Neopeek.UptimeMinutes` | src/main.rs:49 | `num_minutes() % 60` lies in [0, 60) for a non-negative duration and in (-60, 0] for a negative one. |
| `Neopeek.UptimeSplitsMinutes` | src/main.rs:46-50 | Hours times 60 plus the minutes shown gives the whole minutes, with Rust's truncating `/` and `%`. For a non-negative duration the minutes lie in [0, 60) and the hours are non-negative. For a negative one, both are non-positive. |
| `Neopeek.UptimeValue` | src/main.rs:46-50 | The uptime text has at least 18 characters, the length of "0 hours, 0 minutes". `UptimeValueReadsBack` states the whole text. |
| `Neopeek.MemoryValue` | src/main.rs:56-62 | No contract of its own. `MemoryValueReadsBack` states the whole text. The requirement `free <= total` is where the source's `u64` subtraction would panic; `Facts` turns that case into `MemoryUnderflow`. |
| `Neopeek.MemoryExample` | src/main.rs:56-62 | Total 16777216 KiB with 8388608 KiB free is shown as "8192 MiB / 16384 MiB". |
| `Neopeek.ResolutionExample` | src/main.rs:37-42 | 1920 x 1080 at 144 Hz is shown as "1920x1080 @ 144Hz". |
| `Neopeek.DiskFragment` | src/main.rs:70 | No contract of its own. `DiskFragmentReadsBack` states the whole text. |
| `Neopeek.DiskFragments` | src/main.rs:66-72 | The `.map(..).collect()` over the disks: one fragment per disk, in query order, fragment `i` being `DiskFragment` of disk `i`. |
| `Neopeek.ResolutionValueReadsBack` | src/main.rs:37-42 | The resolution text is `w` "x" `h` " @ " `f` "Hz", where `w`, `h` and `f` are decimal texts without leading zeros that read back as the width, the height and the refresh rate. |
| `Neopeek.UptimeValueReadsBack` | src/main.rs:46-50 | The uptime text is `h` " hours, " `m` " minutes", where `h` and `m` are signed decimal texts that read back as `UptimeHours` and `UptimeMinutes` of the elapsed seconds. |
| `Neopeek.MemoryValueReadsBack` | src/main.rs:56-62 | The memory text is `u` " MiB / " `t` " MiB", where `u` reads back as `(total - free) / 1024` and `t` as `total / 1024`. |
| `Neopeek.DiskFragmentReadsBack` | src/main.rs:70 | A disk fragment is "(" id ") " `g` " GiB", where `g` reads back as the size divided by 2^30 and truncated. |
| `Neopeek.DiskValue` | src/main.rs:64-74 | No contract of its own. `DiskValueAppend` and `DiskValueLength` characterise it. |
| `Neopeek.DiskValueAppend` | src/main.rs:64-74 | The disk text lists volumes in query order. One more disk appends " \| " and its "(id) N GiB" fragment. No disks give "". |
| `Neopeek.DiskValueLength` | src/main.rs:64-74 | `n` disks give their fragments and exactly `n - 1` separators. |
| `Neopeek.FactTable` | src/main.rs:29-75 | The table has 11 entries whose keys are, in order, "", "", OS, Kernel, Shell, Resolution, Uptime, CPU, GPU, Memory, Disk. The first value is the username, the second is empty, the Shell value is the shell version, and the Uptime value has at least 18 characters. `FactTableRows` gives the value beside every other key. |
| `Neopeek.FactTableRows` | src/main.rs:29-75 | Each row pairs its key with the value the source writes beside it: OS with the caption and architecture, Kernel with the OS version, Resolution, Uptime, Memory and Disk with their texts (whose `*ReadsBack` lemmas give the numbers), CPU with the processor name, GPU with the video controller name. |
| `Neopeek.FactValues` | src/main.rs:29-75 | The eleven values in table order: the username first, then the empty rule value, the shell version fifth, and an uptime text of at least 18 characters seventh. `FactTableRows` states every other value. |
| `Neopeek.Facts` | src/main.rs:15-75 | Collecting the facts succeeds exactly when `fetch` succeeds, the boot timestamp has at least 4 characters, the trimmed timestamp parses, and free memory does not exceed total memory. Otherwise it fails with one of four panics, each exactly when its condition is the first to hold, in source order: `FetchFailed`, `BootTimeTooShort`, `BootTimeUnparsable`, `MemoryUnderflow`. On success the result is `FactTable` of the lowercased username (or "null"), the fetched records, the architecture, the three-tier shell version and the elapsed seconds. |
| `Neopeek.Collect` | src/main.rs:20-75 | For fetched records: success exactly when the timestamp has at least 4 characters, the trimmed timestamp parses and free <= total, else `BootTimeTooShort`, `BootTimeUnparsable` or `MemoryUnderflow`, each exactly when it is the first to fail. On success the result is `FactTable` of the elapsed seconds. |
| `Neopeek.FactsUptimeRow` | src/main.rs:44-51 | The uptime row of a collected table has at least 18 characters. |
| `Neopeek.MaxKeyLen` | src/main.rs:84 | The result is the longest key, attained by some entry, and 0 for no entries. |
| `Neopeek.MaxLength` | src/main.rs:85-89 | The result is the largest key width + 1 + value length, attained by some entry, and 0 for no entries. |
| `Neopeek.Adjustment` | src/main.rs:83 | No contract of its own. It is `max(rows, 9) - 9` in a tall terminal and 0 otherwise. `FactTableLayout` shows it is 2 for the 11-row table. |
| `Neopeek.ComputeLayout` | src/main.rs:76-91 | The layout succeeds exactly when the art block holds the table, leaves room for the tall-terminal shift, and the content is at least 24 wide. Otherwise it fails with `ArtTooShort`, `NoRoomAboveFacts` or `LegendUnderflow`, each exactly when it is the first to apply. On success `start = (ascii_len - n)/2 - adjustment`, the whole table fits in the block, both paddings are half the slack, and the header padding never underflows. |
| `Neopeek.FactTableLayout` | src/main.rs:82-91 | For the 11-row table the key width is 10 and the content width is at least 29. The layout succeeds exactly when `ascii_len >= 11` and, in a tall terminal, `(ascii_len - 11)/2 >= 2`. Then `start = (ascii_len - 11)/2 - (2 if tall else 0)`. |
| `Neopeek.Row` | src/main.rs:94-141 | Every output line begins with its art line. |
| `Neopeek.HeaderLine` | src/main.rs:101-108 | The line begins with its art line. `HeaderLineBlanks` states the two and `padding` blanks after it. `HeaderRows` states where the bold blue '@' and the trimmed username sit. |
| `Neopeek.RuleLine` | src/main.rs:109-115 | The line begins with its art line. The rest is two blanks, bold blue and `max_length` dash literals; `HeaderRows` states its length and contents. |
| `Neopeek.FactLine` | src/main.rs:116-127 | The line begins with its art line. `FactLineBlanks`, `FactLineKey`, `FactLineSeparator` and `FactLineValue` place the blanks, the key, the ':' and the trimmed value. |
| `Neopeek.LegendLine` | src/main.rs:129-137 | The line begins with its art line. `LegendLineParts` states the rest, and `RowsLayout` states on which line it appears. |
| `Neopeek.LegendLineParts` | src/main.rs:131-137 | The legend row is the art line, exactly `color_padding + 4` blanks, then the colour legend. In a layout `ComputeLayout` builds, `color_padding` is `(max_length - 24) / 2`. |
| `Neopeek.HeaderLineBlanks` | src/main.rs:102-106 | The header row has two blanks and then `padding` blanks right after its art line. |
| `Neopeek.FactLineBlanks` | src/main.rs:117-125 | A fact row has two blanks after its art line. After the key and the reset it has `max_key_len - len(key)` blanks and one more before the ':'. |
| `Neopeek.FactLineSeparator` | src/main.rs:116-128 | A fact row puts its ':' at the same offset from the art line, whatever its key. |
| `Neopeek.FactLineKey` | src/main.rs:116-128 | A fact row shows its key right after the art line, the two blanks and the styling. |
| `Neopeek.FactLineValue` | src/main.rs:116-128 | A fact row ends with the value, trailing whitespace removed. |
| `Neopeek.FactRowAligned` | src/main.rs:116-128 | Every table row after the rule has its ':' in the common column, its key after the styling and its trimmed value at the end. |
| `Neopeek.HeaderRows` | src/main.rs:101-115 | The header row holds '@' and the trimmed username after `padding` blanks, with `2 * padding + len(username) <= max_length`. The rule row is `max_length` copies of the dash literal. |
| `Neopeek.Rows` | src/main.rs:93-142 | The written lines are one per art line, line `i` being row `i` of the layout. |
| `Neopeek.Render` | src/main.rs:93-142 | The loop writes exactly one line per art line, each beginning with its art line, and the result equals `Rows`. |
| `Neopeek.RowsLayout` | src/main.rs:93-142 | The header and the rule occupy the first two table lines. Every fact row has its ':' in the same column. The legend is written on the second line below the table and only when that line exists. Every other line is the bare art line. |
| `Neopeek.Outcome` | src/main.rs:13-143 | On success there is one line per line of the chosen art block (full when the terminal has more than 37 lines, else mini), each beginning with its art line. A failure to collect the facts is the routine's failure. |
| `Neopeek.Place` | src/main.rs:76-142 | Placing the table fails exactly when `ComputeLayout` does, with its panic. Otherwise the output is `Rows` of that layout: one line per art line, each beginning with its art line. |
| `Neopeek.Display` | src/main.rs:13-143 | The step-by-step routine returns exactly `Outcome`. |
| `Neopeek.DisplayFailures` | src/main.rs:15-91 | The routine fails exactly when collecting the facts fails or the chosen art block is too short. The legend padding never underflows. `FetchFailed` comes exactly from a failed `fetch`. |
| `Neopeek.DisplayLayout` | src/main.rs:76-142 | On success the table has 11 rows with the username first and starts at `(ascii_len - 11)/2 - (2 if tall else 0)`. It ends inside the art block, and the output is `Rows` of the chosen block. |

## Left out

- The WMI connection, COM initialisation, the four asynchronous queries and `tokio::join!` are not modelled. Their results are inputs (`Queries`), each a list of records or a failure.
- Registry and environment reads are not modelled. The registry is a map from key path to key. Paths are matched exactly, while Windows matches them case-insensitively. Subkeys whose enumeration failed are assumed already dropped, as `filter_map(Result::ok)` drops them. A value that is not a string counts as missing.
- Parsing the boot timestamp with `chrono` and reading the clock are the `elapsedSince` parameter. It gives whole seconds, and chrono's `num_seconds` already truncates toward zero, so hours and minutes come out the same.
- `term_size::dimensions()` and its panic when there is no terminal are not modelled. The terminal height is an input.
- Writing to the locked stdout is not modelled. The output is the sequence of lines, and write errors are ignored as in the source.
- The `ascii` module (the two art blocks and `COLORS`) is not part of this model. They are inputs.
- `std::env::consts::ARCH` is an input.
- `to_lowercase` is modelled for ASCII letters only.
- Lengths are counted in characters. Rust's `len()` counts UTF-8 bytes, so widths agree only for ASCII text.
- The slice `[..len - 4]` is assumed to fall on a character boundary.
- `usize`/`u64` underflow is modelled as a panic, which is the behaviour of a build with overflow checks. A release build would wrap instead.
- `main` and the tokio runtime are not modelled.
- `src/enums.rs` is not modelled: its `StatType` enum has no behaviour and is not declared as a module of the crate.
