# time-tree-sync: the unit parser and the exporter command, in Dafny

time-tree-sync periodically runs the external `timetree-exporter` tool to turn
TimeTree calendars into `.ics` files that a Google calendar can subscribe to.
Which calendars to export is read from the process environment: every variable
`NAME=TIMETREE_ID|GOOGLE_CALENDAR_ID` names one *unit*, except the service's
own five settings (`TIMETREE_EMAIL`, `TIMETREE_PASSWORD`,
`SYNC_INTERVAL_MINUTES`, `PORT`, `OUTPUT_FILE`). For each unit the service
writes `/app/output/<NAME>.ics` by launching
`timetree-exporter -e <email> -c <calendar code> -o <file>`.

This project models that logic and proves what it guarantees:

- `pystring.dfy` (module `PyString`) holds the Python string builtins the parser
  relies on. `IsSpace` is the exact character set of `str.isspace`. `Strip` is
  `str.strip()`, scanning inwards from both ends as CPython does. `IndexOf` is
  `str.find` for one character. `Split1` is `str.split(sep, 1)`.
  Each carries an independent characterisation: `StripUnique` and `Split1Unique`.
- `units.dfy` (module `Units`) models `get_all_units`. `ParseEntry` is what one
  environment entry contributes. `AllUnits` is the specification of the whole
  list. `GetAllUnits` is the source's loop, which appends to a local list; it is
  proved equal to `AllUnits`. The lemmas cover the following:
  - the exclusion rules;
  - splitting at the first separator;
  - trimming;
  - exactly one unit per qualifying entry;
  - order preservation.

  The environment is a sequence of `(name, value)` pairs in iteration order.
  `DistinctKeys` says each name occurs once: `os.environ` is a dictionary built
  from the process's environment block, so it holds each name once even when
  the block repeats one. Only the lemmas that need it assume it.
- `sync.dfy` (module `Sync`) models the pure parts of `sync_one_unit`:
  - `PathJoin` is `os.path.join`, including its rule that an absolute second
    component replaces the first.
  - `OutputFile` is the per-unit path.
  - `SyncOne` is the command line handed to the exporter.
  - `SyncUnits` and `SyncCycle` are one pass of the background loop with its
    per-unit isolation.

  The exporter process is not modelled. An `Attempt` records the argument list
  the service would launch, or records that the unit raised before any process
  started. That happens when `TIMETREE_EMAIL` is unset: the list then holds
  `None`, and joining it for the log line (app.py:64) raises `TypeError`. The
  loop catches this (app.py:87-90).

The code in app.py:29-35 does not reject empty ids: a value of `"|"` or `" | "`
still yields a unit with empty ids (`Units.ParseEntryAllowsEmptyIds`).

`os.path.join` drops the output directory when a unit name itself starts with
`/`. Names that do not start with `/` always get distinct path strings
(`Sync.OutputFileInjective`, `Sync.CycleOutputsDistinct`). A name such as
`/app/output/x` lands on the same file as the unit `x`
(`Sync.AbsoluteNameCollides`).

## Model

| member | source | states |
|---|---|---|
| `PyString.Strip` | app.py:33-34 | the result has no leading or trailing whitespace, and it is the exact slice of the input between a whitespace-only prefix and a whitespace-only suffix (nothing else changed) |
| `PyString.StripUnique` | app.py:33-34 | for any whitespace `a`, `b` and any core `m` whose ends are not whitespace, `Strip(a + m + b) == m`: an independent characterisation of `str.strip()` |
| `PyString.StripAllSpace` | app.py:33-34 | a whitespace-only string strips to the empty string, so such an id is kept as `""` |
| `PyString.StripIdempotent` | app.py:33-34 | stripping an already stripped id changes nothing |
| `PyString.StripKeepsOnlyOwnChars` | app.py:30-33 | stripping introduces no character, so a calendar code cut before the first separator still holds none |
| `PyString.SkipSpaceForward` | app.py:33-34 | the start of the stripped text: every character before it is whitespace, and the character at it (if any) is not |
| `PyString.SkipSpaceBackward` | app.py:33-34 | the end of the stripped text: every character from it onwards is whitespace, and the one before it (if above the start) is not |
| `PyString.IndexOf` | app.py:30 | the first position holding the separator: no earlier position holds it, and the position holds it unless it is the end |
| `PyString.IndexOfAbsent` | app.py:29 | the search reaches the end exactly when the value does not contain the separator, so the membership test and the split agree |
| `PyString.Split1` | app.py:30 | without a separator the result is `[s]`; otherwise it has two parts, the first holds no separator, and the first part, the separator and the second part rebuild the value exactly (round trip) |
| `PyString.Split1Unique` | app.py:30 | the split is at the first separator: any decomposition as p, separator, q with no separator in p is the one returned, so later separators stay in the second part |
| `Units.ParseEntry` | app.py:26-35 | an entry yields a unit if and only if its key is not one of the five settings and its value contains the separator; the unit's name is the key |
| `Units.AllUnits` | app.py:18-37 | the unit list is never longer than the environment |
| `Units.GetAllUnits` | app.py:23-37 | the loop that appends unit records returns exactly `AllUnits(env)` |
| `Units.ParseEntryAtFirstSeparator` | app.py:29-35 | for a non-setting key and a value made of `before`, the separator and `after`, with no separator in `before`, the unit is `(key, strip(before), strip(after))` |
| `Units.ParsedIdsTrimmed` | app.py:30-34 | both ids of a parsed unit have no surrounding whitespace, and the calendar code contains no separator |
| `Units.ParseEntryOfPaddedIds` | app.py:30-34 | whitespace around either id is dropped and nothing else: padded ids around the first separator come out exactly |
| `Units.ParseEntryExample` | app.py:29-35 | the entry `UNIT_A` whose value is " tt123 ", the separator, " gc456 " gives the unit `("UNIT_A", "tt123", "gc456")` |
| `Units.ParseEntrySplitsOnce` | app.py:30 | the value "a", separator, "b", separator, "c" gives calendar code "a" and a Google id of "b", the separator and "c" |
| `Units.ParseEntryAllowsEmptyIds` | app.py:29-35 | a value of a space, the separator and a space still yields a unit, with two empty ids |
| `Units.OriginsMatchUnits` | app.py:23-37 | there is one originating entry per unit, and each is a position of the environment |
| `Units.UnitsParsedFromOrigins` | app.py:23-37 | the j-th unit is exactly the parse of its originating entry |
| `Units.UnitNamedAfterOrigin` | app.py:32 | the j-th unit carries the name of its originating entry |
| `Units.OriginsIncrease` | app.py:24-37 | originating positions strictly increase: units come out in environment order, each entry at most once |
| `Units.OriginsAreQualifyingEntries` | app.py:26-35 | an entry is the origin of a unit if and only if it is not a setting and its value contains the separator |
| `Units.UnitsComeFromQualifyingEntries` | app.py:26-35 | every unit is named after an entry that is not a setting and whose value contains the separator |
| `Units.ExcludedKeyNeverUnit` | app.py:26-27 | no unit is named after one of the five settings, whatever its value |
| `Units.NoSeparatorNeverUnit` | app.py:29 | with distinct variable names, an entry whose value has no separator never becomes a unit |
| `Units.QualifyingEntryYieldsUnit` | app.py:24-35 | every qualifying entry's unit is in the list |
| `Units.UnitNamesDistinct` | app.py:24-37 | with distinct variable names, unit names are distinct, so each qualifying entry yields exactly one unit |
| `Units.UnitsKeepEnvironmentOrder` | app.py:23-37 | with distinct variable names, if entry i1 precedes entry i2 then the unit of i1 precedes the unit of i2 |
| `Sync.PathJoin` | app.py:48 | an absolute component is the whole result; a relative component ends the result and the directory prefixes it, separated by exactly one `/` inserted when the directory does not already end in one |
| `Sync.OutputFile` | app.py:48 | every output path ends in `.ics` |
| `Sync.OutputFileInOutputDir` | app.py:48 | for a name not starting with `/`, the file is `"/app/output" + "/" + name + ".ics"` |
| `Sync.UnitNameOf` | app.py:48 | a path it accepts is exactly `/app/output/<name>.ics` for the name it returns |
| `Sync.OutputFileRoundTrip` | app.py:48 | the output path determines the unit name: `UnitNameOf(OutputFile(name)) == Some(name)` |
| `Sync.OutputFileInjective` | app.py:48 | two names not starting with `/` with the same output path string are equal |
| `Sync.AbsoluteNameCollides` | app.py:48 | the unit name `/app/output/x` gets the same file as the unit `x`, because `os.path.join` keeps an absolute second component |
| `Sync.ParseArgv` | app.py:57-62 | a command line it accepts is exactly `[timetree-exporter, -e, email, -c, code, -o, file]` for the invocation it returns |
| `Sync.SyncOne` | app.py:57-64 | a unit is launched if and only if the email is set; the launched command reads back as email after `-e`, the unit's calendar code after `-c` and its output file after `-o`; otherwise the attempt raises and names the unit |
| `Sync.SyncUnits` | app.py:86-90 | one attempt per unit, in order, each exactly that unit's own attempt: a unit that raises does not stop the others |
| `Sync.SyncCycle` | app.py:79-90 | a pass re-enumerates the units from the environment and makes one attempt per unit, in order |
| `Sync.CycleOutputsDistinct` | app.py:48 | with distinct variable names, where no name of a qualifying entry starts with `/`, two units of one pass never get the same output path string |

## Left out

- The exporter process itself (`subprocess.run`, its stdout and stderr, its exit code; app.py:66-72). It is an opaque external tool. A launched attempt stops at the argument list.
- The environment passed to the exporter (app.py:51-55). It re-sets `TIMETREE_EMAIL` and `TIMETREE_PASSWORD` to the values they already have.
- All logging (`print`), `os.makedirs` (app.py:13), the `sleep` between passes, and the daemon thread running the loop forever (app.py:75-93, 114-115). These are I/O, time and concurrency. `Sync.SyncCycle` is a single pass.
- The Flask status route and `app.run` (app.py:96-119). This is the HTTP framework. Its `units` field is `get_all_units()`, which is modelled.
- Parsing `SYNC_INTERVAL_MINUTES` and `PORT` with `int(...)` (app.py:10, 118). These are library conversions of settings that the modelled code never reads.
- Reading `TIMETREE_EMAIL` from the environment at module load (app.py:8). The email is a parameter (`Option<string>`) of `Sync.SyncOne`, `Sync.SyncUnits` and `Sync.SyncCycle`.
- Failures of `subprocess.run` itself, such as a missing executable. The per-unit `except` would catch them like the `TypeError` above, but they depend on the machine, not on the inputs.
- Path normalisation. Output paths are compared as strings: `.`, `..` and repeated `/` segments in a unit name (`./x` against `x`) give different strings that name one file, so `Sync.OutputFileInjective` and `Sync.CycleOutputsDistinct` promise distinct path strings, not distinct files.
- Python string details beyond what the code uses. Strings are sequences of code points; there is no normalisation or encoding.
