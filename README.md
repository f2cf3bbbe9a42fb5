# snr registry switcher: a Dafny model of its core

`snr` is a small command-line tool that keeps a catalog of npm registry
mirrors. Each mirror has a name, a home page and a registry URL. The tool
lists the mirrors, marks the one the package manager currently uses, and
adds and deletes custom mirrors. It also probes mirrors for latency and
prints a report that highlights the fastest one. This project models the
logic behind those commands, from `src/actions.js` and `src/utils.js`, and
proves what that logic guarantees.

Modules:

- `Strings`: the JavaScript built-ins the code relies on.
  - `trim`, with the full ECMAScript whitespace set.
  - `new Array(n).join(sep)`, where the holes join to `n - 1` separators.
  - `new Array(n).fill(' ').join('')`.
  - The decimal text of an integer, with a round-trip proof.
- `Styling`: `chalk` output kept as tagged spans, not escape codes.
  - `Text` is what a terminal shows without colour.
  - `Shows(x, style)` says some span carries that style.
- `Utils`: `padding`, `geneDashLine`, `isRegistryNotFound` and `isInternalRegistry`.
- `Catalog`: the mirror catalog (`REGISTRIES`) as a class.
  - Fields: a key sequence in insertion order and a map from name to `Entry(home, registry)`.
  - `Add` and `Delete` update both fields in place.
  - `Current` is the `current` command's lookup.
  - `List` and its helper `ListLines` build the `ls` lines.
  - `DeleteGuardAsWritten` is the check that opens `delete` in the source; `DeleteGuard` is the check its message describes (see Findings).
- `SpeedTest`: the `test` command.
  - It takes fetch outcomes and elapsed times as inputs (`Observation`).
  - It builds one probe record per mirror (`Probe`, `ProbeAll`).
  - It picks the fastest successful time (`Fastest`).
  - It formats one line per record (`FormatReport`).
  - `Test` checks an unknown target before any probe.

The active registry, which the source reads with `npm get registry`, is a
string parameter (`cur`). Prompt answers are parameters too.

## Model

| member | source | states |
|---|---|---|
| Strings.Trim | src/actions.js:96 | `s.trim()`: the input with its leading and trailing ECMAScript whitespace dropped; TrimShape, TrimEmptyIffBlank and TrimIdempotent state what it keeps |
| Strings.TrimShape | src/actions.js:116-117 | what `trim` keeps is one contiguous piece of the input with only whitespace on either side, and it neither starts nor ends with whitespace |
| Strings.TrimEmptyIffBlank | src/actions.js:96-98 | `answer.trim()` is empty exactly when every character of the answer is ECMAScript whitespace |
| Strings.TrimIdempotent | src/actions.js:149 | trimming an already trimmed registry URL changes nothing, so comparing a stored trimmed URL after another `trim` is comparing it as stored |
| Strings.JoinHoles | src/utils.js:28-30 | `new Array(n).join(c)` is `n - 1` copies of `c`, and empty for `n = 0` |
| Strings.JoinFilled | src/utils.js:7-9 | `new Array(n).fill(' ').join('')` is exactly `n` spaces |
| Strings.NatToStringRoundTrip | src/actions.js:221-224 | the decimal text of a non-negative time reads back as that time |
| Strings.IntToStringRoundTrip | src/actions.js:221-224 | `time + " ms"` writes a signed numeral that reads back as `time`, so different times print differently |
| Utils.Padding | src/utils.js:5-11 | `padding(message, before, after)` with both counts defaulting to one, built from the filled-and-joined arrays; PaddingLayout states what it shows |
| Utils.PaddingLayout | src/utils.js:5-11 | `padding(m, b, a)` shows `b` spaces, then `m`, then `a` spaces, and adds no styling to `m` |
| Utils.DashCount | src/utils.js:28 | `geneDashLine` always writes at least one dash |
| Utils.GeneDashLine | src/utils.js:27-32 | `geneDashLine(message, length)`: a dimmed join of `max(2, length - n + 2)` holes, padded by one space each side; GeneDashLineLayout and DashLineAligns state its text and width |
| Utils.GeneDashLineLayout | src/utils.js:27-32 | `geneDashLine(message, length)` is one space, `max(1, length - n + 1)` dim dashes and one space, where `n` is the message's length |
| Utils.DashLineAligns | src/utils.js:28 | for a message no longer than `length`, the message plus its dashes take `length + 1` characters, and the message plus the whole dash line take `length + 3` |
| Utils.IsRegistryNotFound | src/utils.js:34-40 | true exactly when no catalog key equals the name |
| Utils.IsInternalRegistry | src/utils.js:42-48 | true exactly when some catalog key equals the name |
| Utils.NotFoundIsNotInternal | src/utils.js:34-48 | the two membership predicates are exact complements |
| Catalog.FilterOut | src/actions.js:136 | `keys.filter(k => !whitelist.includes(k))` keeps exactly the names not on the list and is never longer; FilterOutAppend, FilterOutKeepsAll and FilterOutDistinct state that it keeps their order and introduces no repeats |
| Catalog.FilterOutAppend | src/actions.js:136 | filtering `a + b` gives the kept names of `a` followed by those of `b`, so `filter` keeps the input order |
| Catalog.FilterOutKeepsAll | src/actions.js:136 | when no name is on the list, the filter returns the list unchanged |
| Catalog.FilterOutDistinct | src/actions.js:136 | filtering a list without repeats yields a list without repeats |
| Catalog.FilterOutAt | src/actions.js:158 | in a list of distinct names, removing one name leaves the names before and after it, in order |
| Catalog.MaxLength | src/actions.js:30 | `Math.max(...keys.map((v) => v.length))`, the longest name length (0 for no names); MaxLengthBounds states that it bounds every name and is attained |
| Catalog.MaxLengthBounds | src/actions.js:30 | the width base is the length of some name and no name is longer |
| Catalog.ValidateName | src/actions.js:91-100 | a name is refused as taken exactly when it is already a catalog key (any key, not only a built-in one); otherwise it is refused as blank exactly when it trims to empty; otherwise it is accepted |
| Catalog.ValidateUrl | src/actions.js:106-111 | a URL is accepted exactly when it is not blank after `trim`, and otherwise refused as blank |
| Catalog.PadTo | src/actions.js:35-39 | the padded prefix is exactly `width` characters long |
| Catalog.PadToAt | src/actions.js:35-39 | position by position the prefix holds the original character where there was one and `-` where the array had a hole |
| Catalog.Marker | src/actions.js:33-34 | the two-character mark: `* ` when the mirror's URL equals the trimmed active registry, else two spaces; LsLineLayout states its length and when it is `* ` |
| Catalog.LsLine | src/actions.js:33-41 | one `ls` line: mark and name padded with dashes to the width, two spaces, the URL; LsLineLayout states its layout |
| Catalog.LsLineLayout | src/actions.js:33-41 | with a width at least three past the name, an `ls` line is the two-character mark, the name, at least one dash up to the width, two spaces and the URL; the mark is `* ` exactly when the URL equals the trimmed active registry |
| Catalog.ListLines | src/actions.js:32-42 | one line pushed per name, in the order given, each the `ls` line of that name |
| Catalog.LsLinesAligned | src/actions.js:30-42 | with the width `ls` computes, every line's prefix is exactly the longest name plus three wide and ends in at least one dash |
| Catalog.DeleteGuardAsWritten | src/actions.js:133-134 | the guard as written reaches its message only for an empty catalog and throws for any other |
| Catalog.DeleteGuard | src/actions.js:133-143 | the intended guard: nothing to delete exactly when every name is built in; otherwise it offers a non-empty list holding exactly the custom names |
| Catalog.DeleteGuardThrows | src/actions.js:133 | on the catalog `npm`, `mine` the guard as written throws, and the intended guard offers `mine` |
| Catalog.Registries.constructor | src/constants.js:2 | the loaded catalog has distinct names that are exactly the map's keys |
| Catalog.Registries.FindActive | src/actions.js:72-76 | `find` returns the position of the first active name from a given position, or none when no later name is active |
| Catalog.Registries.Current | src/actions.js:72-81 | `current` reports the first key in order whose URL equals the trimmed active registry (an empty key never counts); with no such key it reports the active registry as printed |
| Catalog.Registries.List | src/actions.js:25-45 | `ls` yields one line per key, in key order, each padded to the longest name plus three |
| Catalog.Registries.Add | src/actions.js:91-118 | the result is the name check's error, else the URL check's; an accepted add appends the raw name to the key order with home and registry both trimmed, leaves every other entry as it was and keeps the catalog consistent; a refused add changes nothing |
| Catalog.Registries.Candidates | src/actions.js:136 | the names offered for deletion are exactly the catalog keys not on the built-in list |
| Catalog.Registries.Delete | src/actions.js:146-158 | the deletion is refused, changing nothing, exactly when the chosen mirror's trimmed URL equals the trimmed active registry; otherwise exactly that key leaves the map and the key order, and the other keys keep their order |
| Catalog.Registries.Remove | src/actions.js:158 | `delete REGISTRIES[name]` takes the name out of the map and out of the key order, keeps every other name in its place and keeps the catalog consistent |
| Catalog.MembershipMatchesEntries | src/utils.js:34-48 | for a consistent catalog, the two membership predicates agree with the entry map |
| SpeedTest.Given | src/actions.js:177 | a target counts only when it is present and non-empty, as JavaScript truthiness of a string has it; Test states what a given target does |
| SpeedTest.Sources | src/actions.js:182 | the probed names: the target alone when one is given, otherwise every catalog key in order; Test states the resulting line counts |
| SpeedTest.RecordOf | src/actions.js:188-202 | a probe record has the mirror's name, URL and elapsed time; success holds exactly when the response was ok; the timeout flag holds exactly when fetch threw a `request-timeout`, so it never coexists with success |
| SpeedTest.Probe | src/actions.js:186-202 | the flag-updating probe body yields exactly the record `RecordOf` describes |
| SpeedTest.Records | src/actions.js:184-204 | one record per probed name, in name order, each describing that name's probe |
| SpeedTest.ProbeAll | src/actions.js:184-204 | collecting the probes yields the records in source order, whatever order the probes finish in |
| SpeedTest.SuccessTimes | src/actions.js:206-208 | the filtered times are exactly the times of the successful records |
| SpeedTest.Min | src/actions.js:209 | the least of a non-empty list is in the list and no element is smaller |
| SpeedTest.Fastest | src/actions.js:206-209 | there is no fastest time exactly when no record succeeded; otherwise it is the time of a successful record and no successful record is faster |
| SpeedTest.SortedHeadIsFastest | src/actions.js:206-209 | the first element of any ascending arrangement of the successful times is `Fastest`, and an empty one leaves `fastest` undefined |
| SpeedTest.Prefix | src/actions.js:218 | green `* ` for the mirror whose URL equals the trimmed active registry, else two plain spaces; PrefixFacts states its text and styles |
| SpeedTest.Suffix | src/actions.js:219-227 | the status (highlighted time, `timeout`, or the time in ms) followed, for a failed probe, by the timeout or failure note; SuffixText and SuffixFacts state its text and styles |
| SpeedTest.TestLine | src/actions.js:228 | mark, name, dash line and status of one record; TestLineLayout, TestLineHighlight and TestLineNotes state its text, highlight and notes |
| SpeedTest.ReportLines | src/actions.js:211-229 | the report has one line per record |
| SpeedTest.ReportFor | src/actions.js:184-229 | the report has one line per probed name |
| SpeedTest.FormatReport | src/actions.js:211-229 | the `forEach` pushes, for each record in order, that record's report line |
| SpeedTest.Test | src/actions.js:174-231 | `test` stops with not-found exactly when a non-empty target is not a catalog key, before any probe; a known target is probed alone, giving one line; no target probes every key, giving one line per key; the report is the probed names' report |
| SpeedTest.ProbeAndReport | src/actions.js:184-229 | probing, picking the fastest and formatting give the report of the probed names |
| SpeedTest.Numerals | src/actions.js:214 | the configured timeout prints as `5000` |
| SpeedTest.TimeoutNoteText | src/actions.js:214 | the timeout note reads ` (请求时间： 5000 ms)` |
| SpeedTest.SuffixText | src/actions.js:219-227 | the status reads as the time in ms when it is highlighted or the probe did not time out, else as `timeout`; a failed probe then gets the timeout note or the failure note |
| SpeedTest.Lead | src/actions.js:215-228 | the text before the status is `length + 5` characters long |
| SpeedTest.PrefixFacts | src/actions.js:218 | the test line's mark reads like the `ls` mark and is green or plain |
| SpeedTest.SuffixFacts | src/actions.js:217-227 | only a highlighted status is bright green; the yellow note appears only after a timed-out failure and the red one only after another failure; a failure's last span is its note |
| SpeedTest.TestLineParts | src/actions.js:228 | every span of a line comes from its mark, its name, its dash line or its status, and the whole status is in the line |
| SpeedTest.TestLineLayout | src/actions.js:215-228 | for a name no longer than `length`, a line reads as the mark, the name, the dash line and the status, and the status starts in column `length + 5` |
| SpeedTest.TestLineHighlight | src/actions.js:217-221 | a line is highlighted exactly when no target was given and its time equals the fastest time, whether or not its own probe succeeded; equal times all highlight |
| SpeedTest.TestLineNotes | src/actions.js:225-227 | a line carries the yellow timeout note exactly when its probe failed by timing out, and the red failure note exactly when it failed otherwise |
| SpeedTest.ReportShape | src/actions.js:206-229 | in the full report every status starts in the same column (the longest name plus eight), and line `i` is highlighted exactly when no target was given and record `i`'s time is the fastest |
| SpeedTest.NoSuccessNoHighlight | src/actions.js:206-221 | when no probe succeeded, no line is highlighted |
| SpeedTest.FastAndSlow | src/actions.js:184-229 | two mirrors answering in 50 ms and 400 ms, probed together: the first line is highlighted, the second is not and its status reads `400 ms` |
| SpeedTest.DeadMirrorTimesOut | src/actions.js:174-229 | a named mirror whose fetch timed out after 5000 ms gives a failed, timed-out record; its line is not highlighted, carries the yellow note, and its status reads `timeout (请求时间： 5000 ms)` |

## Left out

- Child processes are left out. `getCurrentOrigin` runs `npm get registry`; the model takes its output as the `cur` parameter.
- `useFn` is left out. It prompts with the catalog keys, looks up the chosen mirror's registry URL and runs `npm config set registry` with it in a child process; the prompt and the child process are I/O, and the lookup is a plain map read.
- The network, `Date.now`, `Promise.all` scheduling and the `PKG.name` suffix of the probe URL are left out. Fetch outcomes and elapsed times are inputs, and the records come back in source order, as `Promise.all` returns them.
- Writing `registries.json` is left out, as is `JSON.stringify`. Only the in-memory catalog is modelled.
- After a successful delete, the write at src/actions.js:161 names an undeclared `path`. Its `catch` then prints an undeclared `err` (src/actions.js:167). The model keeps only the in-memory removal, which happens before either.
- `inquirer` prompts and `commander` wiring are left out. Prompt answers are parameters, and `Delete` requires the chosen name to be one of the offered candidates.
- `chalk` escape codes, `printMessages`, `printError`, `printSuccess` and `exit` are left out. Styled text is a sequence of tagged spans.
- The messages printed by `isRegistryNotFound` and `isInternalRegistry` are left out.
- Utils.IsRegistryNotFound: returns the boolean itself. The source function is `async`, so it returns a promise of that boolean.
- Utils.IsInternalRegistry: returns the boolean itself. The source function is `async`, so it returns a promise of that boolean.
- Catalog.Registries.Add: assumes names are ordinary property names. Assigning to `REGISTRIES["__proto__"]` replaces the object's prototype instead of adding a key, so in the source adding a mirror named `__proto__` passes both checks and reports success yet leaves `Object.keys` unchanged; the model appends it like any other name.
- JavaScript reorders integer-like object keys. The model assumes mirror names are not integer-like, so key order is insertion order.
- Catalog.MaxLength: string lengths count characters, whereas JavaScript's `.length` counts UTF-16 code units. The two differ only for characters outside the Basic Multilingual Plane.
- Catalog.MaxLength: returns 0 for an empty catalog, where `Math.max()` gives `-Infinity`. No line is built in that case.
- SpeedTest.Probe: elapsed time is an unbounded integer. Floating-point `Date.now()` arithmetic is not modelled.

Behaviour that follows the code as written:

- A name is refused when it is any existing catalog key, not only when it is a built-in one.
- The highlight goes to every record whose time equals the fastest successful time. That includes ties and failed records that happen to have the same time. It is not limited to a single fastest success.
- A timed-out probe's status reads `timeout`, unless it is highlighted (no target given and its time equals the fastest time), in which case it reads as its time in ms; either way a note showing the configured 5000 ms follows, not the elapsed time.

## Findings

| source | as written | input that shows it | evidently intended | confidence | as-written member | corrected member |
|---|---|---|---|---|---|---|
| src/actions.js:133 | `keys.every((k) => REGISTRIES.includes(k))` calls `includes` on the catalog object, which has no such method, so `delete` throws a `TypeError` on any non-empty catalog and reaches its "no custom mirror" message only when the catalog is empty | catalog keys `npm`, `mine` | report that there is nothing to delete exactly when every name is on the built-in list, and otherwise offer the custom names | high (not executed) | Catalog.DeleteGuardAsWritten, Catalog.DeleteGuardThrows | Catalog.DeleteGuard |
