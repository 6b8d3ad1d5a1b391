# multirun — a verified model of its labelling, streaming and launch logic

multirun starts `count` copies of one command, prefixes every line the
copies print with a per-instance colour and label, and forwards SIGTERM to
the copies when it is interrupted. This project models, in Dafny, the
sequential logic inside `multirun.go`:

- **Label assignment** (`labels.dfy`, module `Labels`, on `decimal.dfy`,
  module `Decimal`). The id verb is `%d`, `%02d` or `%03d`, chosen from the
  instance count. Ids are rendered zero-padded. Instance `i` gets colour
  `colors[i % 36]`, or none with `-no-color`. The prefix is the custom
  template with every `{id}` replaced, or `[<id>]` when there is no template.
  `idFormat` and `formatPrefix`, which the test file calls, are
  `ChooseIdFormat` (with `IdFormat.Verb`) and `FormatPrefix` here.
  The 36-entry colour table is written as three attributes (none, bold,
  underline) times twelve hues. `PlainColors`, `BoldColors` and
  `UnderlinedColors` pin every entry to the escape code in the source.
- **Line streaming** (`streaming.dfy`, module `Streaming`). `streamOutput`
  becomes a method with a scanning loop. The method is proved to write
  exactly the decorated lines of its input, in order.
- **Launch accounting** (`launch.dfy`, module `Launch`, on the entities in
  `instances.dfy`). The loop of `main` fills the instance slice and counts
  two pending streamers per instance whose pipes and start succeeded. The
  operating system's answer to each launch is an input (`Attempt`).
- **Interrupt broadcast** (`shutdown.dfy`, module `Shutdown`). This is the
  handler's filter over the instance slice, plus its one-shot behaviour.

The handler signals only instances whose command holds a started process
(multirun.go:108). A nil slot, or an instance whose pipes or `Start` failed, is
skipped. `Shutdown.Targets` does the same.

A prefix template is used as given, so a template holding a newline
(multirun.go:75, 137) splits every output line in two. `Streaming.StreamLines`
therefore asks for a newline-free label, and `Streaming.AssignNoNewline` shows
that every label `Assign` builds from a newline-free template is one.

Constants and types with a counterpart in the source:

- `Labels.ColorTable`: the `colors` slice, multirun.go:17-54, written out entry by entry.
- `Labels.Reset`: `resetColor`, multirun.go:56.
- `Labels.Label`: the `color` and `prefix` fields of `instance`.
- `Instances.Instance`, `Instances.Command`, `Instances.Process`: `instance` and its `*exec.Cmd`, reduced to whether a process was started.
- `Instances.Attempt`: the outcome of one launch (which call failed first, or the started process), multirun.go:145-161.
- `Shutdown.Handler`: the interrupt goroutine, armed until its one receive, multirun.go:104-105.

## Model

| member | source | states |
|---|---|---|
| `Decimal.RenderRoundTrip` | multirun.go:135 | the zero-padded rendering of an id decodes back to the id, at every width |
| `Decimal.Render` | multirun.go:135 | `%0<w>d` output is all digits and `max(w, digits of n)` long: padded, never truncated |
| `Decimal.Digits` | multirun.go:135 | the plain `%d` numeral is non-empty, all digits, without a leading zero |
| `Labels.ChooseIdFormat` | multirun.go:114-120 | for 1 ≤ count < 1000 the pad width equals the number of digits of count (1 below 10, 2 below 100, 3 below 1000); from 1000 on it stays 3 |
| `Labels.FormatId` | multirun.go:135 | the id string is digits only, decodes to the id, and has the chosen width unless the id is longer |
| `Labels.IdsAligned` | multirun.go:114-120 | in a run of fewer than 1000 instances every id 1..count renders at the same length |
| `Labels.IdsMisalignedFrom1000` | multirun.go:116-117 | from 1000 instances on, id 1 renders in 3 characters but id 1000 in 4 |
| `Labels.Color` | multirun.go:129-132 | no colour with `noColor`; otherwise a non-empty code different from the reset code |
| `Labels.ColorFromTable` | multirun.go:129-132 | the table has 36 entries, instance `i` gets `colors[i % 36]` when colouring is on and no colour when it is off |
| `Labels.Palette` | multirun.go:17-53 | entry `k` of the colours as attribute (plain, bold, underline) × hue; no contract of its own: `PlainColors`, `BoldColors` and `UnderlinedColors` tie it to the table and `PaletteDistinct` states its entries differ |
| `Labels.PlainColors` | multirun.go:18-29 | palette entries 0-11 are the table's plain codes 31-36 and 91-96, in that order |
| `Labels.BoldColors` | multirun.go:30-41 | palette entries 12-23 are the table's bold (`1;`) codes |
| `Labels.UnderlinedColors` | multirun.go:42-53 | palette entries 24-35 are the table's underlined (`4;`) codes |
| `Labels.SgrInjective` | multirun.go:17-53 | two escape codes built from a palette attribute and hue are equal only if attribute and hue are |
| `Labels.PaletteDistinct` | multirun.go:17-53 | the 36 palette entries are pairwise different |
| `Labels.ColorPeriod` | multirun.go:131 | two indices get the same colour iff they agree modulo 36, so the period is exactly 36 |
| `Labels.ColorCycles` | multirun.go:131 | colour(i) == colour(i + 36), with or without colouring |
| `Labels.ReplacePlaceholder` | multirun.go:137 | `strings.ReplaceAll(prefix, "{id}", idStr)`, leftmost occurrences first; no contract of its own: `ReplaceFirstPlaceholder` states that each occurrence becomes the id with the surrounding text kept, and the lemmas in the next rows state the rest |
| `Labels.ReplaceWithoutPlaceholder` | multirun.go:136-137 | a template without `{id}` is returned unchanged |
| `Labels.ReplaceByPlaceholder` | multirun.go:137 | replacing `{id}` by `{id}` is the identity; how each occurrence is rewritten is stated by `ReplaceFirstPlaceholder` |
| `Labels.ReplaceRemovesAllPlaceholders` | multirun.go:137 | with a non-empty digit id, no `{id}` is left anywhere in the result: every occurrence is replaced |
| `Labels.FormatPrefix` | multirun.go:134-140 | empty template gives `[` + id + `]`; a template without `{id}` is kept; a non-empty template's result has no `{id}` left; `ReplaceFirstPlaceholder` states that each `{id}` becomes the rendered id and the rest of the template is kept |
| `Labels.Assign` | multirun.go:129-140 | the label of instance `index`; no contract of its own: `AssignLabel`, `PrefixesAligned` and `AssignNoNewline` state its properties |
| `Labels.AssignLabel` | multirun.go:129-140 | colour is empty iff `noColor`, else `colors[index % 36]`; the default prefix is `[`, a digit string whose value is `index + 1`, then `]`; a template prefix has no `{id}` left, and is kept as is when it had none |
| `Labels.PrefixesAligned` | multirun.go:114-140 | with the default prefix and count < 1000 every instance's prefix is the length of count's numeral plus 2 |
| `Labels.ReplaceAfterText` | multirun.go:137 | text in which no `{id}` starts is copied unchanged ahead of the replaced remainder |
| `Labels.ReplaceFirstPlaceholder` | multirun.go:137 | the first `{id}` becomes the id string; the text before it is kept as is and the text after it is replaced in turn |
| `Labels.WorkerTemplate` | multirun.go:137 | `Worker-{id}` becomes `Worker-` followed by the id string, whatever it is |
| `Labels.IdFormatExamples` | multirun_test.go:10-30 | the verbs for counts 1, 5, 9, 10, 50, 99, 100, 999 |
| `Labels.DefaultPrefixExamples` | multirun_test.go:40-42 | `[3]`, `[03]`, `[003]` |
| `Labels.CustomPrefixExample` | multirun_test.go:43 | `Worker-{id}` with id 5 gives `Worker-5` |
| `Labels.CustomPaddedPrefixExample` | multirun_test.go:44 | `Worker-{id}` with id 5 and `%02d` gives `Worker-05` |
| `Labels.StaticPrefixExample` | multirun_test.go:45 | `Static` stays `Static` |
| `Labels.RepeatedPlaceholderExample` | multirun_test.go:46 | `{id}-{id}` with id 7 gives `7-7` |
| `Streaming.NewlineIndex` | multirun.go:189 | the scanner's line end is a newline or the end of the text |
| `Streaming.NewlineIndexFirst` | multirun.go:189 | no newline precedes the line end: a line stops at the first newline |
| `Streaming.SplitLinesNoNewline` | multirun.go:188-190 | the scanned lines hold no newline |
| `Streaming.SplitLines` | multirun.go:188-190 | the lines the scanner yields; no contract of its own: `SplitLinesNoNewline`, `SplitJoin` and `JoinSplit` state that it is the inverse of joining |
| `Streaming.SplitJoin` | multirun.go:188-192 | splitting newline-terminated lines gives back exactly those lines |
| `Streaming.JoinSplit` | multirun.go:188-192 | re-joining the scanned lines gives back the text, plus a newline if its last line had none |
| `Streaming.Decorated` | multirun.go:191 | one written line without its newline: colour, prefix, a space, the line, the reset code; no contract of its own: `StreamLines` and `SingleLine` use it |
| `Streaming.StreamText` | multirun.go:188-192 | everything written for one stream; no contract of its own: `StreamOutput` is proved to produce it, `StreamLines` splits it back |
| `Streaming.StreamFirstLine` | multirun.go:189-191 | one scanner step: the output for the remaining text is the first line decorated, a newline, then the output for what follows that line |
| `Streaming.StreamOutput` | multirun.go:185-197 | the writer receives, for each scanned line in order, colour + prefix + " " + line + reset + newline, and nothing else |
| `Streaming.StreamLines` | multirun.go:189-192 | the written text splits into exactly one decorated line per input line, in input order, each ending with the reset code |
| `Streaming.AssignNoNewline` | multirun.go:129-140 | an assigned colour and prefix hold no newline when the template holds none |
| `Streaming.ReplaceNoNewline` | multirun.go:137 | replacing `{id}` by a newline-free id in a newline-free template gives a newline-free text |
| `Streaming.AssignedStreamLines` | multirun.go:188-192 | for an instance with a newline-free template, the written text splits into exactly its decorated input lines |
| `Streaming.SingleLine` | multirun_test.go:81-98 | one newline-terminated input line produces exactly its decorated line and a newline |
| `Streaming.EmptyInputExample` | multirun_test.go:99-104 | empty input produces empty output |
| `Launch.StartedIds` | multirun.go:145-163 | the started ids are in range, belong to successful attempts, and strictly increase |
| `Launch.StartedIdsComplete` | multirun.go:145-163 | for every instance, id `i + 1` is among the started ids iff its pipes opened and its start succeeded |
| `Launch.Spawned` | multirun.go:123-163 | instance `i` after its launch attempt; no contract of its own: `SpawnedLabels` states its fields |
| `Launch.SpawnedAll` | multirun.go:122-142 | the instance slice after the loop; no contract of its own: `Launch` is proved to build it, `SpawnedLabels` states its slots |
| `Launch.Launch` | multirun.go:88-179 | count < 1 is rejected before anything is spawned; otherwise slot `i` holds the instance with id `i + 1`, its label, and a process iff its launch succeeded; the counter is 2 × the number of started instances |
| `Launch.SpawnedLabels` | multirun.go:123-142 | instance `i` has id `i + 1`, colour `Color(i)`, the formatted prefix, and a process iff its start succeeded |
| `Shutdown.Signalable` | multirun.go:108 | the handler's guard: a non-nil instance whose command holds a started process |
| `Shutdown.Targets` | multirun.go:107-110 | the ids the handler signals, in slice order, at most one per slot; `TargetsExactly` and `Broadcast` state what it selects |
| `Shutdown.TargetsExactly` | multirun.go:107-110 | an id is signalled iff some slot holds a non-nil instance with a command and a started process and that id |
| `Shutdown.Broadcast` | multirun.go:107-111 | the handler's loop signals exactly the filtered instances, in slice order |
| `Shutdown.TargetsOfMatching` | multirun.go:107-110 | a slice whose slot `i` is signalable exactly when attempt `i` started, with id `i + 1`, is signalled in exactly the started-id order |
| `Shutdown.SpawnedMatches` | multirun.go:123-163 | the slice the launch loop builds matches its launch attempts slot by slot |
| `Shutdown.LaunchedTargets` | multirun.go:107-110 | after the launch loop, the handler signals exactly the started instances, each once, in launch order |
| `Shutdown.Interrupt` | multirun.go:104-111 | after an interrupt the handler has fired |
| `Shutdown.Deliver` | multirun.go:104-111 | everything sent over a series of interrupts; no contract of its own: `OnlyFirstInterruptActs` and `RepeatedInterrupts` state it |
| `Shutdown.OnlyFirstInterruptActs` | multirun.go:104-106 | only the first interrupt sends signals; a fired handler sends nothing |
| `Shutdown.RepeatedInterrupts` | multirun.go:101-112 | any number of interrupts after the launch signal every started instance exactly once, and no other instance |

## Left out

- Process creation, pipes, `Start` and `Wait` (multirun.go:126, 145-178) are operating-system calls. Each instance's outcome is the input `Attempt`: the first failing call, or the started process.
- Goroutines, the blocking of `sync.WaitGroup`, and signal delivery through `signal.Notify` are left out. The wait group is modelled only as its counter after the launch loop (`pending`). The streamers' `Done` calls and the final `Wait` are not modelled.
- The launch loop runs concurrently with the interrupt handler. The handler's view of the instance slice is a parameter (`slots`, `snapshots`).
- In the source, an instance is stored in its slot before its pipes are opened (multirun.go:142). In the model it is stored once, at the end of its iteration. The handler cannot tell these apart, because the process stays nil until `Start` succeeds.
- The wait goroutine's report of a non-zero exit (multirun.go:172-178) is not modelled. Neither is the wording of any message printed to stderr (multirun.go:89, 106, 147, 153, 159, 175, 195).
- Flag parsing, the usage text, and the exit when no command is given (multirun.go:72-86) are left out.
- `bufio.Scanner` details are left out: stripping a trailing `\r`, the 64 KiB line limit, and read errors with their report (multirun.go:194-196). The model splits plain text on `\n`.
- The writers are the shared stdout and stderr. `StreamOutput` returns the text written for one stream. How lines from different streamers interleave is not determined by the code, so it is not modelled.
- `fmt.Sprintf` is modelled only for `%d`, `%02d` and `%03d` on natural numbers. Ids are always positive.
- `Shutdown.Interrupt`: its own contract states only the handler's new state. What it sends is stated by `OnlyFirstInterruptActs` and `RepeatedInterrupts`.
