# MegaRAID check: a Dafny model of the MegaCLI output parser

This project models the parsing core of the Datadog MegaRAID check,
`megaraid.py`. The check runs `megacli` twice and turns its text output into
gauges:

- `check_adapter` scans the `-LDInfo -Lall` output. A line starting with
  `Adapter` sets the current adapter. A line starting with `State` reports
  `megaraid.adapter.status`: 0 when the line mentions `Optimal`, 1 otherwise.
  The gauge is reported as soon as the line is read.
- `check_disks` scans the `-pdlist` output into a nested map: adapter id, then
  disk id, then field, then value. An `Adapter #` line opens an adapter and a
  `Device Id:` line opens a disk. Six kinds of field line each set one value:
  three error counters, the S.M.A.R.T. alert flag, the temperature and the
  firmware flag. Once the whole scan has gone through, one
  `megaraid.device.<key>` gauge is reported per value in the map.

Both scans are pure folds over the lines of the output. Each line of the
Python can raise `KeyError`, `IndexError` or `ValueError`. Here the fold
returns a `Result`, and the first exception ends the scan, as it does in
Python:

- gauges the adapter scan reported before the exception stay reported;
- the disk scan reports nothing at all.

The modules follow the program's structure:

| file | module | contents |
|---|---|---|
| `results.dfy` | `Results` | `Option`, `Result` and the three exception kinds |
| `text.dfy` | `Text` | `startswith`, `in`, `count`, `split`, `int()` and `str()` on integers |
| `metrics.dfy` | `Metrics` | the gauge triple, metric names, device names |
| `adapter_scan.dfy` | `AdapterScan` | the `-LDInfo` loop and its reference description |
| `disk_fields.dfy` | `DiskFields` | the six field prefixes, the `elif` chain and each field's value rule |
| `disk_scan.dfy` | `DiskScan` | the `-pdlist` loop, when it goes through, and what a device block stores |
| `disk_emission.dfy` | `DiskEmission` | the flattening loops, and where every stored value came from |
| `check.dfy` | `Checks` | `check_disks` and `check` end to end, with exit codes |

The command output and the exit code are inputs, and the host name is a
parameter.

Two behaviours of the code look unintended. The model keeps both exactly as
written:

- **Adapter key.** Every `Adapter` header resets the record under the
  fixed key `"0"`, not under the adapter it names. A `State` line therefore
  finds a record only when the last header named adapter `0`. After any other
  header, it raises `KeyError` and the adapter scan stops.
- **Firmware flag.** `firmware_ok` is 0 whenever the line contains
  `Spun Up`, so `Online, Spun Up` gives 0.

A malformed line is not skipped: its exception ends the whole scan. Which
exception it is depends on the line alone: `IndexError` for a missing word
or piece, `ValueError` for a value that is no integer, and `KeyError` for a
lookup of an adapter or disk that has no entry at that point, including a
disk wiped by a later `Adapter #` line for the same adapter.

Device names are `<host>:megaraid/<adapter>` and
`<host>:adapter:<adapter>/<disk>`. Two different disks can share a name when
an adapter id contains `/`: adapter `1/2` with disk `3`, and adapter `1` with
disk `2/3`. Without a `/` in adapter ids, names never collide.

## Model

| member | source | states |
|---|---|---|
| Text.Split | megaraid.py:66 | `str.split(c)` returns at least one piece, and no piece contains the separator |
| Text.JoinSplit | megaraid.py:66 | gluing the pieces back with the separator gives the original text, so splitting loses nothing |
| Text.SplitJoin | megaraid.py:68 | splitting separator-free pieces joined by the separator gives back exactly those pieces |
| Text.SplitSnoc | megaraid.py:101 | appending a separator and one separator-free word appends exactly one piece |
| Text.Token | megaraid.py:68 | `line.split(c)[i]` succeeds exactly when there are more than `i` pieces; otherwise it raises `IndexError`; the token never contains the separator |
| Text.StartsWithIffAgrees | megaraid.py:94-116 | `line.startswith(p)` holds exactly when `line` is at least as long as `p` and agrees with `p` at every position of `p` |
| Text.ContainsIffOccurs | megaraid.py:71 | `p in line` holds exactly when `p` starts some suffix of `line` |
| Text.Count | megaraid.py:117 | `line.count(p)` is non-zero exactly when `p` occurs in `line`, so `line.count(p) < 1` tests `p not in line` |
| Text.SeparatorIffTwoPieces | megaraid.py:95 | `line.split(c)` has a second piece exactly when `c` occurs in `line` |
| Text.ParseInt | megaraid.py:101 | `int(s)` succeeds exactly when `s`, stripped of white space, is an optional sign, then optional white space, then one or more decimal digits; otherwise it raises `ValueError` |
| Text.ParseIntSpaceAfterSign | megaraid.py:101 | white space between the sign and the digits is skipped: `int('- 3')` is -3 and `int('+ 3')` is 3 |
| Text.ParseIntShow | megaraid.py:101 | `int()` of the decimal text of `n`, with any white space around it, gives back `n` |
| Text.PrefixesExclusive | megaraid.py:94-97 | two prefixes that differ at one position cannot both start the same line |
| AdapterScan.Step | megaraid.py:66-76 | one line fails exactly when it is a header without a second word (`IndexError`) or a `State` line with no record for the current adapter (`KeyError`). Otherwise it appends one gauge for a `State` line and none for any other line, and creates no record under a key other than `"0"` |
| AdapterScan.Run | megaraid.py:66-76 | the loop emits at most one gauge per line, and while it runs the only record key is `"0"` |
| AdapterScan.CheckAdapter | megaraid.py:59-76 | a non-zero exit code scans and reports nothing. Otherwise the scan runs to the end exactly when every line is accepted, and then it reports exactly the reference gauges. In every case the gauges reported are a prefix of the reference gauges. A stopped scan raised the exception of its first rejected line |
| AdapterScan.RunInvariant | megaraid.py:64-76 | the scan runs to the end iff every line is accepted. When it does, the current adapter is the id of the last header, the only record key is `"0"`, and the gauges are one per `State` line, in input order, for device `<host>:megaraid/0`, valued 0 iff the line mentions `Optimal` |
| AdapterScan.AbortedAtFirstRejectedLine | megaraid.py:66-76 | a stopped scan stopped at the first line it does not accept, with `IndexError` for a header and `KeyError` for a `State` line, and reported exactly the gauges of the lines before that line |
| AdapterScan.EmittedArePrefix | megaraid.py:70-76 | stopped or not, the gauges reported are a prefix of the reference gauges |
| AdapterScan.OtherAdapterStateFails | megaraid.py:67-72 | after a header naming any adapter other than `0` (including `0:`), a `State` line raises `KeyError`, reports nothing more and ends the scan |
| AdapterScan.PinnedAdapterStateEmits | megaraid.py:67-76 | after a header naming adapter `0`, a `State` line reports exactly one more gauge for `<host>:megaraid/0`, valued 0 iff the line mentions `Optimal` |
| AdapterScan.HeaderIsNotStateLine | megaraid.py:67-70 | no line is both an adapter header and a `State` line |
| DiskFields.FirstMatchAt | megaraid.py:100-120 | the `elif` chain picks the earliest field whose prefix the line starts with |
| DiskFields.FirstMatchFound | megaraid.py:100-120 | the field the chain picks is one whose prefix the line starts with; the chain picks nothing only when no prefix matches |
| DiskFields.PrefixesDisjoint | megaraid.py:100-116 | no line starts with the prefixes of two different fields |
| DiskFields.FieldOfIffPrefix | megaraid.py:100-116 | `FieldOf`, the `elif` chain, selects field `f` for a line exactly when the line starts with `f`'s prefix, so the order of the chain never matters and a line sets at most one field |
| DiskFields.FieldValue | megaraid.py:100-120 | computing a field's value raises only `IndexError` or `ValueError`, never `KeyError`; the two flags never fail and are 0 or 1 |
| DiskFields.FieldLineIsNoContextLine | megaraid.py:94-100 | a field line is neither an `Adapter #` line nor a `Device Id:` line |
| DiskFields.FlagValues | megaraid.py:106-120 | `smart_alert` is 0 iff the line contains `No`, else 1. `firmware_ok` is 1 iff the line contains `Online` and does not contain `Spun Up`, else 0. Neither flag ever fails |
| DiskFields.CounterRule | megaraid.py:100-105 | a counter line of three words, a space and a fourth word `w` stores `int(w)`, and raises what `int(w)` raises |
| DiskFields.CounterValue | megaraid.py:100-105 | a counter line of three words then `<n>` stores `n` (`Media Error Count: 3` stores 3). Without the fourth word it raises `IndexError` |
| DiskFields.CounterNotNumber | megaraid.py:100-105 | a counter line whose fourth word is not an integer literal raises `ValueError`; there is no default value |
| DiskFields.TemperatureRule | megaraid.py:113-114 | in a line `<head>:<mid>C<rest>` with no `:` in `head` and neither `:` nor `C` in `mid`, the temperature is `int(mid)`, with its `ValueError` when `mid` is no integer literal |
| DiskFields.TemperatureNoUnit | megaraid.py:113-114 | with no `C` after the colon, the whole text after it is read: `<head>:<mid>` gives `int(mid)` |
| DiskFields.TemperatureNotNumber | megaraid.py:113-114 | a temperature text that is no integer literal raises `ValueError`, with or without a `C` after it (`Drive Temperature :N/A`) |
| DiskFields.TemperatureValue | megaraid.py:113-114 | a line `<head>:<n>C<rest>` with no `:` in `head` stores `n`: the text between the first `:` and the next `C` (`Drive Temperature :45C (113F)` stores 45) |
| DiskFields.TemperatureWithoutColon | megaraid.py:113-114 | a temperature line without `:` raises `IndexError` |
| DiskScan.SectionHasId | megaraid.py:94-95 | an `Adapter #` line always has an adapter id after its `#`, so it never raises |
| DiskScan.OpenSection | megaraid.py:95-96 | `line.split('#')[1]` fails with `IndexError` exactly when the line has no `#`. Otherwise the current adapter becomes that second piece, which holds no `#`; its disk map is empty, and the set of adapters grows by that id only |
| DiskScan.OpenDevice | megaraid.py:98-99 | the third word is taken before the adapter lookup: a line of fewer than three words raises `IndexError`, a missing adapter raises `KeyError`. Otherwise the current disk becomes that third word, with an empty record under the current adapter and the adapters are unchanged |
| DiskScan.SetField | megaraid.py:100-120 | the value is computed before the record lookup, so its `IndexError` or `ValueError` wins over `KeyError`. It goes through exactly when the value is computable and a record is open, and then the record holds the value and the context is unchanged |
| DiskScan.Step | megaraid.py:93-120 | a section header never fails, a line of no kind changes nothing, and a failing line raises the exception its form determines |
| DiskScan.Run | megaraid.py:93-120 | a failed loop failed with the exception of one of its lines |
| DiskScan.StepCases | megaraid.py:93-120 | each line does exactly one of four things. An `Adapter #` line replaces its adapter's disk map with an empty one, wiping disks read before. A `Device Id:` line opens a new record under the current adapter. A field line sets one field of the current record. Any other line changes nothing |
| DiskScan.RunAppend | megaraid.py:93 | scanning `a + b` is scanning `a`, then `b` from where `a` stopped; an exception in `a` ends the scan |
| DiskScan.ScanInvariant | megaraid.py:91-120 | the scan goes through iff every line is accepted. A device line needs a third word and an earlier `Adapter #` line. A field line needs a value that parses and an open device. Along the way, there is a current adapter iff a section header was seen, and the current record exists iff a device line came after the last header |
| DiskScan.FailedAtFirstRejectedLine | megaraid.py:93-120 | a failed scan failed at its first rejected line: `KeyError` for a `Device Id:` line before any `Adapter #` line or a field line with no open record, `IndexError` for a `Device Id:` line without a third word, and the value's own `IndexError` or `ValueError` for a field line whose value cannot be computed |
| DiskScan.RecordOfSet | megaraid.py:100-120 | a field line overrides its own field in the record and leaves every other field as it was; a later line for the same field wins |
| DiskScan.BlockEffect | megaraid.py:100-120 | field lines after a device line change only that device's record. The record then holds the value of the last line for each field set, and the old value for each field not set. The block goes through iff every value parses |
| DiskScan.DeviceBlock | megaraid.py:97-120 | under an open adapter, a device line followed by field lines gives the disk a fresh record holding exactly what those lines set; every other disk and adapter is left as it was |
| DiskScan.TwoDeviceBlocks | megaraid.py:97-120 | two device blocks under one adapter give two records, each holding only the fields set in its own block |
| DiskEmission.FlattenRecord | megaraid.py:124-125 | the innermost loop visits every field of one record exactly once |
| DiskEmission.FlattenAdapter | megaraid.py:123-125 | the middle loop visits every field of every disk of one adapter exactly once |
| DiskEmission.Flatten | megaraid.py:122-125 | the three loops visit every value stored in the map exactly once, and nothing else |
| DiskEmission.EmitDisks | megaraid.py:122-125 | one `megaraid.device.<key>` gauge with device `<host>:adapter:<a>/<d>` per value present; an absent field gives no gauge rather than a zero |
| DiskEmission.StepProvenance | megaraid.py:93-120 | one line keeps every stored value traceable to a field line of the input: headers and device lines only add empty maps |
| DiskEmission.ScanProvenance | megaraid.py:93-125 | after a successful scan, every stored value, and so every disk gauge, is the value some field line of the input yields for that field |
| DiskEmission.ScanIds | megaraid.py:93-99 | after a successful scan, every adapter id in the map is the `split('#')[1]` of some `Adapter #` line of the output, and every disk id the `split(' ')[2]` of some `Device Id:` line |
| Metrics.AdapterDeviceInjective | megaraid.py:76 | two adapters get the same device name on one host only if they are the same adapter |
| Metrics.DiskDeviceInjective | megaraid.py:125 | when adapter ids hold no `/`, two disks get the same device name only if both adapter and disk are the same |
| Metrics.DiskDeviceCollision | megaraid.py:125 | with a `/` in an adapter id, two different disks can share a device name |
| Checks.CheckDisks | megaraid.py:85-125 | a non-zero exit code, or any exception in the scan, reports no disk gauge; the exception is the one of the first rejected line. Otherwise exactly one gauge is reported per value in the final map; each value came from a field line of the output, and its adapter and disk ids from a header and a device line of the output |
| Checks.RunCheck | megaraid.py:49-53 | without an `adapter` entry the check raises `KeyError` before anything is reported. An exception in the adapter scan keeps the adapter gauges already reported and skips the disk check. Otherwise the disk gauges follow the adapter gauges |

## Left out

- Running `megacli` (megaraid.py:54-57, 80-83): the command line, `sudo`, `shlex` and `Popen` are not modelled. The output text and exit code are inputs.
- The check that `megacli` exists and is executable (megaraid.py:44-47) is not modelled. `Checks.RunCheck` starts after it has passed.
- The syslog calls (megaraid.py:61, 88, 115) have no effect on the gauges and are left out. That includes the temperature log line, which only reads back the value just stored.
- The fallback `AgentCheck` class, the constructor defaults and the `__main__` block (megaraid.py:20-40, 128-134) are plumbing and are left out.
- Emission order: the disk gauges come out in dictionary iteration order. The model leaves that order open: each loop picks any key not yet visited. The contracts fix the collection visited and that each value is visited once.
- Text.ParseInt: only ASCII digits, an optional sign, and space or tab-to-carriage-return white space (around the literal and between the sign and the digits) are accepted. The model assumes the Python 2 byte-string `int()`, so Unicode digits and white space, and the underscores later Python versions allow, are not modelled.
- The output is taken to be text, as under Python 2. Under Python 3, `communicate()` returns bytes and `output.split('\n')` itself raises. That failure is not modelled.
- The initial `adapter` of `check_disks` is the configured selector, not `None`. The disk map is empty until the first `Adapter #` line, so every lookup with that selector misses, exactly as with no adapter. The model starts from no adapter.
- The selector's value only appears in the command line, which is not modelled. Only its presence matters, because `instance['adapter']` raises `KeyError` when it is missing.
