# sysinfo-cli: the process listing and the byte formatter, in Dafny

`sysinfo-cli` is a command-line tool that prints a snapshot of the host:
system, CPUs, memory, disks, network interfaces, temperature sensors and
processes. Most of it copies values out of the `sysinfo` crate and renders
them. This project models the parts with logic of their own, and proves
properties about them:

- **The process listing** (`get_processes_info`, `src/collector.rs`):
  1. keep the processes whose name contains the `--filter` text, case-sensitively;
  2. copy each one into a `ProcessInfo` record, writing the pid as text;
  3. stable-sort the records by `--sort`: CPU usage descending, memory descending, pid text ascending, or lowercased name ascending;
  4. truncate the list to `--limit`.
- **`format_bytes`** (`src/fmt.rs`): shows a byte count as a value with two decimals and a binary unit from `B` to `EiB`. Zero is shown as `0 B`.
- **Name clipping** in the process table (`src/fmt.rs`): a name longer than 30 bytes is shown as its first 27 bytes followed by `...`.

Modules:

| module | contents |
|---|---|
| `Prelude` | `Option` |
| `Text` | strings as byte sequences; `contains`; byte-wise `Ord`; ASCII lowercasing; decimal rendering of a `u64` and reading it back |
| `Models` | `u64`, the `ProcessInfo` record |
| `Args` | the `SortBy` key |
| `Iter` | the `filter(..).map(..).collect()` chain, for any predicate and mapping |
| `Sorting` | the stable sort that `sort_by` performs, on any strict weak order |
| `Collector` | from the processes to the listing |
| `Fmt` | `format_bytes` and name clipping |
| `FmtExamples` | the byte counts the program's tests format, and two rounding cases |

### How the sort is modelled

- **The specification.** `Sorting.StableSort` defines the sort. It is a functional insertion sort with two proved properties:
  - its result is sorted and is a permutation of its input;
  - elements with equal keys keep their input order. A key class is the subsequence of the elements a given element is equivalent to, and the sort preserves every key class.
- **Stability pins down the result.** `StableSortUnique` proves that StableSort gives the only arrangement that is both sorted and stable. So the model holds for whichever stable algorithm the Rust standard library runs.
- **The implementation.** The in-place `Sorting.SortInPlace` sorts an `array`, and is proved equal to `StableSort`. `Collector.GetProcessesInfo` does what the Rust function does: it builds the records, sorts them in place and truncates, and it is proved equal to the functional `Collector.ProcessesInfo`.

### Behaviour worth knowing

- **Pids sort as text, not as numbers.** The comparator compares the `String` that `pid.to_string()` produced, so pid 10 is listed before pid 9 (`Collector.PidOrderIsTextual`).
- **A value just below a unit can print as 1024.00.** The unit is chosen before the value is rounded to two decimals, so a count just short of the next unit can print as `1024.00` of the smaller unit: 1048575 bytes print as `1024.00 KiB` (`FmtExamples.FormatBytesCarriesToUnitSize`).

## Model

| member | source | states |
|---|---|---|
| Text.Contains | src/collector.rs:111 | `name.contains(f)`: f occurs in the name at some offset, byte for byte |
| Text.EmptyPatternMatches | src/collector.rs:111 | an empty `--filter` text is contained in every name, so it keeps every process |
| Text.ContainsBounds | src/collector.rs:111 | a name contains itself; a filter longer than the name never matches |
| Text.LexLess | src/collector.rs:125 | `Ord` on strings: the first differing byte decides, and a proper prefix is less |
| Text.LexLessIrreflexive | src/collector.rs:125 | no string compares less than itself |
| Text.LexLessTransitive | src/collector.rs:125 | byte-wise string order is transitive |
| Text.LexLessTotal | src/collector.rs:125 | of two different strings, one compares less than the other |
| Text.LexLessAsymmetric | src/collector.rs:125 | two strings never compare less in both directions |
| Text.LexOrderIsNotNumeric | src/collector.rs:125 | "10" compares less than "9" |
| Text.LowerChar | src/collector.rs:126 | an upper-case ASCII letter maps to its lower-case letter; every other byte is unchanged; the result is never upper case |
| Text.Lower | src/collector.rs:126 | lowercasing keeps the length and lowercases each byte in place: byte i of the result is LowerChar of byte i |
| Text.LowerIdempotent | src/collector.rs:126 | lowercasing twice gives the same result as lowercasing once |
| Text.Decimal | src/collector.rs:116 | the pid text is non-empty and made of digits; it is one digit long exactly when the number is below 10 |
| Text.DecimalRoundTrip | src/collector.rs:116 | reading the pid text back gives the pid |
| Text.DecimalNoLeadingZero | src/collector.rs:116 | the text starts with `0` only for the number 0 |
| Text.DecimalInjective | src/collector.rs:116 | different pids give different texts |
| Sorting.Insert | src/collector.rs:122-127 | inserting adds exactly the one element: length + 1, multiset + {x} |
| Sorting.StableSort | src/collector.rs:122-127 | the sort keeps the length and the multiset of its input |
| Sorting.InsertSorted | src/collector.rs:122-127 | inserting into a sorted sequence keeps it sorted, for any strict weak order |
| Sorting.StableSortSorted | src/collector.rs:122-127 | the result is sorted: no later element is less than an earlier one |
| Sorting.InsertKeyClass | src/collector.rs:122-127 | inserting x appends x to the key class of every element equivalent to x, and leaves the other classes alone |
| Sorting.StableSortKeepsKeyClasses | src/collector.rs:122-127 | stability: equivalent elements keep their relative input order |
| Sorting.KeyClassOfEquiv | src/collector.rs:122-127 | equivalent elements have the same key class |
| Sorting.KeyClassMembers | src/collector.rs:122-127 | a key class holds only elements of the sequence that are equivalent to x |
| Sorting.KeyClassLast | src/collector.rs:122-127 | the last element of a sequence ends its own key class |
| Sorting.SortedKeyClassesDetermine | src/collector.rs:122-127 | two sorted sequences with the same key classes are equal |
| Sorting.StableSortUnique | src/collector.rs:122-127 | every sorted arrangement with the key classes of s equals StableSort(s), so any stable sort returns the same list |
| Sorting.KeyClassOfPrefix | src/collector.rs:129-131 | truncating a sequence shortens each key class to one of its prefixes |
| Sorting.InsertInPlace | src/collector.rs:122-127 | in place, the first i+1 array cells become the insertion of cell i into the first i cells; the rest is unchanged |
| Sorting.SortInPlace | src/collector.rs:122-127 | the in-place sort leaves the array equal to StableSort of its old contents |
| Collector.Admits | src/collector.rs:109-114 | no filter admits every name; a filter admits the names that contain it |
| Collector.ToInfo | src/collector.rs:115-120 | the record copies name, CPU usage and memory unchanged |
| Collector.ToInfoPidReadsBack | src/collector.rs:116 | the record's pid text reads back as the pid |
| Iter.FilterMap | src/collector.rs:109-120 | the chain yields at most one result per input element |
| Iter.FilterMapSingle | src/collector.rs:109-120 | one element yields its image when kept and nothing otherwise |
| Iter.FilterMapAppend | src/collector.rs:109-120 | the results for a ++ b are those for a followed by those for b, so each kept element is copied once, in input order |
| Iter.FilterMapMembers | src/collector.rs:109-120 | the image of every kept element is collected, and every result is the image of a kept element |
| Iter.FilterMapKeepingAll | src/collector.rs:109-120 | when every element is kept, result i is the image of element i and the lengths agree |
| Collector.FilterMap | src/collector.rs:109-120 | the chain with the filter closure and the record copy: at most one record per process; every kept record's name passes the filter; with no filter, record i is the copy of process i |
| Collector.Before | src/collector.rs:122-127 | the comparator returns `Less`: CPU usage and memory greater, pid text or lowercased name less |
| Collector.SameKeyNotBefore | src/collector.rs:122-127 | the comparator never orders two records with equal keys |
| Collector.BeforeAsymmetric | src/collector.rs:122-127 | the comparator never orders two records both ways |
| Collector.NeitherBeforeIsSameKey | src/collector.rs:122-127 | records the comparator leaves unordered have equal keys |
| Collector.NotBeforeTransitive | src/collector.rs:122-127 | "not after" is transitive for all four keys |
| Collector.NotBeforeIsInOrder | src/collector.rs:122-127 | b not before a exactly when, for the chosen key: CPU usage a >= b, memory a >= b, pid text a <= b, or lowercased name a <= b |
| Collector.Comparator | src/collector.rs:122-127 | the closure handed to `sort_by` for each key, as a less-than relation |
| Collector.ComparatorIsStrictWeakOrder | src/collector.rs:122-127 | each of the four comparators is a strict weak order |
| Collector.EquivIsSameKey | src/collector.rs:122-127 | two records compare Equal exactly when their key fields are equal |
| Collector.Truncate | src/collector.rs:129-131 | no limit keeps all; with limit l the length is min(l, n) and the result is a prefix |
| Collector.SortedInfo | src/collector.rs:109-127 | the sorted copies are a permutation of the filtered copies |
| Collector.ProcessesInfo | src/collector.rs:108-134 | the listing is a prefix of the sorted copies, no longer than the filtered copies |
| Collector.ProcessesInfoFiltered | src/collector.rs:109-114 | every listed record passes the filter and is the copy of a process the filter admits |
| Collector.ProcessesInfoKeepsAll | src/collector.rs:108-134 | without a limit the listing is a permutation of the filtered copies; every admitted process is listed; with no filter as well, one record per process |
| Collector.ProcessesInfoLimit | src/collector.rs:129-131 | with limit l the listing has min(l, n) records and is a prefix of the sorted list; l = 0 gives an empty list |
| Collector.ProcessesInfoOrdered | src/collector.rs:122-127 | for i < j: CPU usage and memory are non-increasing; pid text and lowercased name are non-decreasing |
| Collector.ProcessesInfoStable | src/collector.rs:122-131 | records with equal keys appear in the order the provider yielded them: each key class is a prefix of the input's, and all of it with no limit |
| Collector.SortedInfoIsTheStableSort | src/collector.rs:122-127 | any sorted arrangement of the filtered copies that keeps equal keys in input order is the modelled listing |
| Collector.PidOrderIsTextual | src/collector.rs:125 | sorting by pid lists pid 10 before pid 9 |
| Collector.ProcessesInfoListing | src/collector.rs:108-134 | the listing's records pass the filter and are in key order; no limit gives a permutation of the filtered copies; a limit caps the length |
| Collector.GetProcessesInfo | src/collector.rs:108-134 | filter, copy, sort in place and truncate give ProcessesInfo; records pass the filter and are in key order; no limit gives a permutation, a limit caps the length |
| Fmt.Pow1024 | src/fmt.rs:118 | `1024.0f64.powi(i)`, a unit size: at least 1 |
| Fmt.Pow1024Monotonic | src/fmt.rs:118 | unit sizes grow with the exponent |
| Fmt.Log1024 | src/fmt.rs:116 | the unit exponent i satisfies 1024^i <= n < 1024^(i+1) |
| Fmt.Log1024Unique | src/fmt.rs:116 | only one exponent satisfies that bracket |
| Fmt.UnitIndex | src/fmt.rs:115-117 | the index into the seven unit names B, KiB, MiB, GiB, TiB, PiB, EiB is at most 6 and 1024^i <= bytes; below the cap, bytes < 1024^(i+1) |
| Fmt.UnitIndexIsLargest | src/fmt.rs:116-117 | the chosen unit is the largest unit whose size does not exceed the count |
| Fmt.UnitIndexBrackets | src/fmt.rs:115-117 | for every u64 above 0, 1024^i <= bytes < 1024^(i+1): the cap at EiB never cuts in |
| Fmt.RoundHalfEven | src/fmt.rs:119 | the result is within half a unit of n / d |
| Fmt.RoundHalfEvenExact | src/fmt.rs:118-119 | an exact quotient is not rounded |
| Fmt.TwoDecimals | src/fmt.rs:119 | the rendering is at least 4 long and its third-last byte is the point |
| Fmt.TwoDecimalsRoundTrip | src/fmt.rs:119 | every other byte is a digit; 100 × integer part + fraction part gives back the count of hundredths |
| Fmt.FormatBytes | src/fmt.rs:111-114 | the output is `0 B` exactly when the count is 0 |
| Fmt.FormatBytesValue | src/fmt.rs:115-119 | a positive count prints as `<value> <unit>`; 1024^i <= bytes < 1024^(i+1); the value is the exact quotient to the nearest hundredth |
| Fmt.Hundredths | src/fmt.rs:118-119 | the printed hundredths h are within half a hundredth of bytes / 1024^i: (2h-1)·1024^i <= 200·bytes <= (2h+1)·1024^i |
| Fmt.FormatBytesExactMultiple | src/fmt.rs:115-119 | k × 1024^i with 1 <= k < 1024 prints as decimal(k) ++ `.00 ` ++ unit i |
| Fmt.UnitIndexOfMultiple | src/fmt.rs:116-117 | k × 1024^i with 1 <= k < 1024 is counted in unit i |
| Fmt.HundredthsOfMultiple | src/fmt.rs:118-119 | k whole units print as exactly 100·k hundredths |
| Fmt.HundredsTwoDecimals | src/fmt.rs:119 | 100·k hundredths render as decimal(k) ++ `.00` |
| FmtExamples.FormatBytesExamples | src/tests.rs:9-16 | 0, 1, 1023, 1024, 1 MiB and 1 GiB print as the test expects, as do 512 KiB, 2 MiB, 100 KiB and 1000 B |
| FmtExamples.FormatBytesOneByte | src/tests.rs:11 | 1 byte prints as `1.00 B` |
| FmtExamples.FormatBytesBytes1023 | src/tests.rs:12 | 1023 bytes print as `1023.00 B` |
| FmtExamples.FormatBytesOneKiB | src/tests.rs:13 | 1024 bytes print as `1.00 KiB` |
| FmtExamples.FormatBytesOneMiB | src/tests.rs:14 | 1024 × 1024 bytes print as `1.00 MiB` |
| FmtExamples.FormatBytesOneGiB | src/tests.rs:15 | 1024³ bytes print as `1.00 GiB` |
| FmtExamples.FormatBytesKiB512 | src/tests.rs:121 | 512 × 1024 bytes print as `512.00 KiB` |
| FmtExamples.FormatBytesMiB2 | src/tests.rs:122 | 2048 × 1024 bytes print as `2.00 MiB` |
| FmtExamples.FormatBytesKiB100 | src/tests.rs:138 | 100 × 1024 bytes print as `100.00 KiB` |
| FmtExamples.FormatBytesBytes1000 | src/tests.rs:150 | 1000 bytes print as `1000.00 B` |
| FmtExamples.FormatBytesRounds | src/tests.rs:151 | 2000 bytes print as `1.95 KiB` |
| FmtExamples.FormatBytesCarriesToUnitSize | src/fmt.rs:116-119 | 1048575 bytes print as `1024.00 KiB`: the unit is chosen before rounding |
| Fmt.ClipName | src/fmt.rs:99 | shown names are at most 30 bytes; a name of up to 30 is unchanged; a longer name becomes 30 bytes: its first 27, then `...` |
| Fmt.ClipNameUnchangedIff | src/fmt.rs:99 | a name is shown unchanged exactly when it is at most 30 bytes; clipping twice gives the same result as clipping once |

## Left out

- **Collecting the snapshot.** Collecting from the OS (the `sysinfo` calls, `refresh_*`) is left out. The process table is a parameter: a sequence of `Process` values in the order in which `sys.processes().values()` yields them. That order is a hash-map order, and the model takes it as given.
- **Everything but the processes.** The other collectors (`get_system_info`, `get_cpu_info`, `get_memory_info`, `get_disks_info`, `get_network_info`, `get_components_info`) are out. They copy provider values field by field and have no logic of their own.
- **Output.** Command-line parsing (`clap`), the watch loop and its timer, and JSON output (`serde`) are out.
- **Table rendering.** Colouring and the table layout of the other `format_*_info` functions are out, and so is the `{:>5.1}` CPU column. Only name clipping, and `format_bytes` as used there, are modelled.
- **CPU usage.** `cpu_usage` is an `f32` in the program and an integer stand-in here, ordered by `>`. `partial_cmp(..).unwrap()` panics when a NaN usage is compared, and that panic is not modelled.
- **Non-ASCII text.** Strings are byte sequences, one element per UTF-8 byte. `to_lowercase` is modelled for ASCII letters only, with no Unicode case mapping. `to_string_lossy` is taken as the identity on names that are valid UTF-8.
- **Non-ASCII names in clipping.** Slicing `&name[..27]` panics when byte 27 falls inside a multi-byte character; the model does not capture that panic.
- Fmt.FormatBytes: the program reckons in `f64`, through `log(1024.0).floor()` and `powi`. The model computes the unit exponent in exact integers and rounds the exact quotient to two decimals, ties to even, which is what `{:.2}` does on an exactly represented quotient. The floating-point logarithm can round a count just below a power of 1024 up to the next exponent: for 2^50 - 1 it gives exactly 5.0, so the program prints `1.00 PiB` where the model prints `1024.00 TiB`. Above 2^53 the conversion `bytes as f64` also rounds the count. The model captures neither rounding.
