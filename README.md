# ad_libber dialogue core, modelled in Dafny

ad_libber feeds short dialogue scripts to a game host. A script file is a list
of lines; a line starting with `[` opens a named section and every other line
belongs to the latest section. The host asks for a section with a request
string `file|section|flags`; the dialogue is then revealed over time by a small
timer-driven state machine, lingers, fades and clears.

This project models that core:

- `wrappers.dfy` — the `Option` type.
- `unicase.dfy` (module `Unicase`) — ASCII case folding and the case-insensitive
  string comparison every lookup and key in the program uses.
- `dialogues.dfy` (module `Dialogues`) — `src/dialogue.rs`: the section
  scanner `Parse`, the lookup `Get`, the file cache `DialogueCache` and the
  reveal state machine `Talker`.
- `engine.dfy` (module `Engine`) — `src/dialogue_engine.rs`: the
  `DialogueEngine` that turns elapsed time into cursor steps, with an abstract
  cursor.
- `queue_params.dfy` (module `QueueParameters`) — `src/interop/queue_params.rs`:
  parsing the request string.
- `global_state.dfy` (module `Interop`) — `src/interop/global_state.rs`: file
  names, the one-shot suppression set and its key, and the dispatch of a
  request to the engine.

The objects the source updates in place (`DialogueCache`, `Talker`,
`DialogueEngine`, `GlobalState`) are classes. Each of their methods is
proved to leave its object in the state a pure function of the old state
describes (`TalkerQueued`, `Run`, `Queued`, `Drain`, `Ticked`, `Scan`, …), and
the lemmas state what those functions guarantee. The loops of the source
(`parse`, `get`, the `tick` loops, the flag loop of `parse` for requests)
are `while`/`for` loops with invariants. Timers are `real`; strings are
sequences of characters.

## Model

| member | source | states |
|---|---|---|
| Unicase.ToAsciiLower | src/interop/global_state.rs:80-81 | a letter A-Z becomes the letter 32 code points later, a-z; every other character is kept |
| Unicase.ToAsciiLowercase | src/interop/global_state.rs:80-81 | lowercasing keeps the length and folds exactly the letters A-Z, leaving every other character as it is |
| Unicase.EqAscii | src/interop/global_state.rs:71-72 | `eq_ascii`: same length and equal character by character once folded; `EqAsciiIffSameLowercase` and `EqAsciiIsEquivalence` state what it means |
| Unicase.EqAsciiIffSameLowercase | src/interop/global_state.rs:69-83 | two strings are equal ignoring ASCII case exactly when their lowercased forms are equal |
| Unicase.EqAsciiIsEquivalence | src/interop/global_state.rs:76 | case-insensitive equality is reflexive, symmetric and transitive |
| Dialogues.HeaderName | src/dialogue.rs:40 | a header's section name is the header minus its first and last character, character for character |
| Dialogues.HeadersBelow | src/dialogue.rs:34-35 | the header positions of a prefix of the file are strictly ascending, within the prefix, and each is a line starting with `[` |
| Dialogues.HeaderListed | src/dialogue.rs:35 | every line starting with `[` is among the header positions |
| Dialogues.AscendingOrdered | src/dialogue.rs:34-47 | header positions listed in ascending order of adjacent pairs are increasing between any two of them |
| Dialogues.SectionAtHeaderStep | src/dialogue.rs:35-47 | reading one more line that is a header leaves every section opened before it as it was |
| Dialogues.SectionAtBodyStep | src/dialogue.rs:49-52 | reading one more line that is not a header adds no header, leaves the earlier sections as they were and appends the line to the latest one |
| Dialogues.ScanHeaderStep | src/dialogue.rs:35-47 | a header line closes the open section and opens an empty one named after it, keeping the line-by-line scan equal to the description by headers |
| Dialogues.ScanBodyStep | src/dialogue.rs:49-52 | any other line is appended to the open section or dropped when none is open, keeping the line-by-line scan equal to the description by headers |
| Dialogues.ScanUpToSections | src/dialogue.rs:34-58 | for every prefix of the file, the scan has one section per header and section k holds exactly the lines from header k up to the next header |
| Dialogues.ScanUpTo | src/dialogue.rs:34-53 | the scan loop over the first n lines as a fold, line by line; `ScanUpToSections` proves it equal to the description by headers, and `ScanLine`/`ScanLines` follow it pass for pass |
| Dialogues.ParseStep | src/dialogue.rs:34-53 | for each of the four cases of one loop pass (header or not, a section open or not), the sections closed so far plus the open one equal the scan of one more line |
| Dialogues.ScanLine | src/dialogue.rs:35-53 | one loop pass keeps "closed sections plus the open one equal the scan of the lines read so far", and nothing is closed while no section is open |
| Dialogues.ScanLines | src/dialogue.rs:34-54 | after the loop, the closed sections plus the open one are the scan of the whole file |
| Dialogues.ParseFinish | src/dialogue.rs:56-58 | pushing the section still open after the last line completes the scan |
| Dialogues.Parse | src/dialogue.rs:27-63 | the loop, then the push of the section still open, yields exactly the scan of the whole file; a one-character header is excluded by the precondition, as the slice panics |
| Dialogues.HeaderCountAppend | src/dialogue.rs:34-35 | one more line adds one to the header count exactly when it starts with `[` |
| Dialogues.HeadersBelowCount | src/dialogue.rs:34-35 | the header positions of a prefix are as many as the header lines counted in it |
| Dialogues.ScanCountsHeaders | src/dialogue.rs:34-58 | there are exactly as many sections as header lines |
| Dialogues.ScanSections | src/dialogue.rs:35-52 | section k is named after the k-th header, belongs to the file being parsed, and holds verbatim and in order the lines strictly between that header and the next one or the end |
| Dialogues.ScanLength | src/dialogue.rs:34-58 | there is one section per header line |
| Dialogues.ScanSection | src/dialogue.rs:35-52 | section k alone: named after header k, belonging to the file, holding the lines between header k and the next header or the end |
| Dialogues.NoHeaderBetween | src/dialogue.rs:34-35 | no line strictly between two consecutive header positions, or after the last one, starts with `[` |
| Dialogues.ScanBodiesHaveNoHeaders | src/dialogue.rs:49-52 | no body line of any section starts with `[` |
| Dialogues.BodyLineNotHeader | src/dialogue.rs:49-52 | any single body line of any section does not start with `[` |
| Dialogues.HeadersBelowPrefix | src/dialogue.rs:34-47 | the headers found in a prefix are a prefix of those of the whole file, and later ones lie beyond it |
| Dialogues.LineInLatestSection | src/dialogue.rs:49-52 | a non-header line after some header sits in the section of the latest header before it, at its position in file order |
| Dialogues.LatestHeader | src/dialogue.rs:34-52 | for a non-header line after some header, there is a latest header before it, and the next header, if any, comes after it |
| Dialogues.FindSection | src/dialogue.rs:65-73 | the result is the first section whose name equals the query ignoring ASCII case, and `None` exactly when no section matches |
| Dialogues.Get | src/dialogue.rs:65-73 | the search loop with early return yields `FindSection` |
| Dialogues.DialogueCache.constructor | src/dialogue.rs:76-80 | a new cache is empty |
| Dialogues.DialogueCache.Preload | src/dialogue.rs:83-92 | afterwards the file is cached; a cached file leaves the map unchanged, otherwise exactly that key is added with the scan of its lines; reading and parsing must succeed, as the source unwraps |
| Dialogues.DialogueCache.Get | src/dialogue.rs:94-96 | returns the cached file, which must be present |
| Dialogues.DialogueCache.Lookup | src/interop/global_state.rs:48 | the cache entry as an option: present exactly when the key is cached |
| Dialogues.TalkerQueued | src/dialogue.rs:115-127 | queueing the section already held (name and file equal ignoring ASCII case) only halves the clear timer; anything else gives the cleared state holding the new dialogue; the state invariant is kept |
| Dialogues.Talker.constructor | src/dialogue.rs:102-112 | a new talker is in the cleared state |
| Dialogues.Talker.Queue | src/dialogue.rs:115-127 | the fields become `TalkerQueued` of the old ones |
| Dialogues.Talker.Clear | src/dialogue.rs:129-136 | every field is reset: no dialogue, line 0, empty string, all timers 0 |
| Dialogues.Clamp01 | src/dialogue.rs:162-163 | the clamped value lies in [0, 1] |
| Dialogues.FadeProgress | src/dialogue.rs:161-163 | the fade share lies in [0, 1], is 0 up to clear time 31 and 1 from 35 on |
| Dialogues.FadeProgressMonotone | src/dialogue.rs:161-163 | a later clear time has faded at least as far |
| Dialogues.ScaledFloor | src/dialogue.rs:165-172 | the blanked count for a share in [0, 1] is at most the line length, and the whole line for share 1 |
| Dialogues.ProductBounds | src/dialogue.rs:165 | arithmetic helper for `ScaledFloor`: a share in [0, 1] of the line length lies between 0 and the length |
| Dialogues.ScaledFloorMonotone | src/dialogue.rs:165-172 | a larger share blanks at least as many characters |
| Dialogues.BlankCount | src/dialogue.rs:159-166 | the number of blanked characters is at most the line length, zero up to clear time 31 and the whole line from 35 on |
| Dialogues.BlankCountMonotone | src/dialogue.rs:159-166 | a later clear time blanks at least as many characters |
| Dialogues.ScaleMonotone | src/dialogue.rs:165 | arithmetic helper for `ScaledFloorMonotone`: scaling by a non-negative length keeps the order |
| Dialogues.FloorMonotone | src/dialogue.rs:172 | arithmetic helper for `ScaledFloorMonotone`: truncating to a whole count keeps the order |
| Dialogues.Faded | src/dialogue.rs:155-180 | the shown line keeps its length; its first `BlankCount` characters are spaces and the rest are the line's |
| Dialogues.Talker.Tick | src/dialogue.rs:146-221 | the loop leaves the fields equal to `TalkerTicked` of the old ones: unchanged without a dialogue, otherwise the `Run` loop |
| Dialogues.Talker.TickPass | src/dialogue.rs:152-219 | one pass of the loop either ends the tick with the fields equal to the result of `Run`, or moves to a strictly lower phase from which `Run` gives the same result |
| Dialogues.Talker.ClearPass | src/dialogue.rs:152-187 | with the clear timer running, the pass gives the result of the tick: timer advanced and line faded, or the talker cleared once past 35 |
| Dialogues.Talker.RevealPass | src/dialogue.rs:189-218 | while revealing, the pass ends the tick with a longer prefix shown or in the pause, or moves to the next line or to the clear timer, in a lower phase |
| Dialogues.Run | src/dialogue.rs:151-220 | the loop of `Talker::tick` from a state with a dialogue, one equation per branch; `RunLineIndex`, `RunStaysOnLine`, `RunRevealsPrefix` and `RunClearTimer` state its properties, and the `Run…Step` lemmas its passes |
| Dialogues.TalkerTicked | src/dialogue.rs:146-221 | `Talker::tick`: nothing without a dialogue, otherwise `Run`; `Talker.Tick` is proved against it |
| Dialogues.RunLineIndex | src/dialogue.rs:199-218 | a tick keeps the invariant; it clears completely or keeps the dialogue; the line index stays in range and moves forward by at most one, only when no clear is running and the pause exceeded 15, after which the pause is reset and the new line's reveal restarts |
| Dialogues.RunStaysOnLine | src/dialogue.rs:203-213 | without a pending pause overrun, a tick stays on its line and the pause grows by at most 1 |
| Dialogues.RunRevealsPrefix | src/dialogue.rs:189-197 | while a line is being revealed, the shown string is the first floor(chars)+1 characters of the current line |
| Dialogues.RunClearTimer | src/dialogue.rs:152-187 | a running clear timer only advances by dt and fades the line, clearing the talker exactly once it passes 35; finishing the last line sets chars to its length and leaves the timer at 1 + dt with the line shown faded as that timer says (whole for dt <= 30) |
| Dialogues.RunClearStep | src/dialogue.rs:152-187 | a pass with the clear timer running ends the tick: the talker is cleared once the timer passes 35, else the timer advances by dt and the line is faded |
| Dialogues.RunRevealStep | src/dialogue.rs:189-197 | a pass that leaves the line incomplete ends the tick with chars advanced by 0.75 dt and the first floor(chars)+1 characters shown |
| Dialogues.RunNextLineStep | src/dialogue.rs:201-213 | once a line that is not the last is complete, the tick ends in the pause (pause plus 1) up to pause 15, and beyond it moves to the next line with pause and chars reset, in a lower phase |
| Dialogues.RunLastLineStep | src/dialogue.rs:215-218 | once the last line is complete, the pass sets chars to the line's length and starts the clear timer at 1, and the loop goes round (to the clear pass) in a lower phase |
| Engine.DefaultOptions | src/dialogue_engine.rs:13-21 | linger time 240 and text rate 0.75 |
| Engine.SameScriptReflexive | src/dialogue_engine.rs:38 | every dialogue is the same as itself |
| Engine.Incr | src/dialogue_engine.rs:93 | the cursor moves exactly when steps remain, each move uses up one; an exhausted cursor stays as it is |
| Engine.Queued | src/dialogue_engine.rs:36-48 | re-queueing the dialogue the cursor holds keeps cursor, accumulator and snapshot and halves the linger timer; anything else gives the cleared engine with a fresh cursor on the new dialogue |
| Engine.QueueSameTwice | src/dialogue_engine.rs:36-43 | queueing the same dialogue twice in a row only halves the linger timer again |
| Engine.Drain | src/dialogue_engine.rs:91-98 | the reveal loop: subtract the rate and step the cursor while the accumulator exceeds the rate, stopping when the cursor runs out; `DrainSteps` and `DrainKeepsAccumulatorPositive` state its properties |
| Engine.Ticked | src/dialogue_engine.rs:61-101 | `DialogueEngine::tick` on the state: idle, lingering or revealing; `TickIdleOrLingering` and `TickRevealing` state its properties |
| Engine.DrainSteps | src/dialogue_engine.rs:89-98 | the reveal loop subtracts exactly one text rate per iteration and steps the cursor once per iteration; the cursor keeps its dialogue and total length; afterwards the accumulator is at most the rate or the cursor ran out |
| Engine.DrainKeepsAccumulatorPositive | src/dialogue_engine.rs:91-98 | with a positive rate, a loop that runs and does not run out leaves the accumulator in (0, rate] |
| Engine.TickIdleOrLingering | src/dialogue_engine.rs:61-87 | without a cursor a tick changes nothing; a lingering tick only adds dt to the linger timer and clears the engine exactly when it passes the linger time |
| Engine.TickRevealing | src/dialogue_engine.rs:89-100 | a revealing tick keeps the dialogue, never moves the cursor back, takes the snapshot from the final cursor, and ends with the accumulator at most the rate or with the cursor exhausted and the linger timer at 1 |
| Engine.DialogueEngine.constructor | src/dialogue_engine.rs:23-33 | default options and the cleared state |
| Engine.DialogueEngine.Queue | src/dialogue_engine.rs:36-48 | the fields become `Queued` of the old ones; options unchanged |
| Engine.DialogueEngine.Clear | src/dialogue_engine.rs:50-55 | no cursor, empty snapshot, both timers 0; options unchanged |
| Engine.DialogueEngine.Tick | src/dialogue_engine.rs:61-101 | the loop leaves the fields equal to `Ticked` of the old ones; options unchanged |
| QueueParameters.FirstSeparator | src/interop/queue_params.rs:10-11 | the position of a `|` with none before it |
| QueueParameters.Split | src/interop/queue_params.rs:10 | splitting yields at least one field and no field contains `|` |
| QueueParameters.SplitCons | src/interop/queue_params.rs:10 | a field without `|` followed by `|` splits off as the first field |
| QueueParameters.SplitJoin | src/interop/queue_params.rs:10 | splitting undoes joining with `|` for fields without `|` |
| QueueParameters.JoinSplit | src/interop/queue_params.rs:10 | joining the fields with `|` gives the input back |
| QueueParameters.Interpret | src/interop/queue_params.rs:9-26 | what parsing a request yields, from its `|`-separated fields; `InterpretFailsWithoutSeparator`, `InterpretFields` and `InterpretJoin` state its properties |
| QueueParameters.HasOneshot | src/interop/queue_params.rs:15-19 | some flag is `oneshot` ignoring ASCII case; `OneshotFlag` gives instances |
| QueueParameters.Parse | src/interop/queue_params.rs:9-26 | the flag loop yields `Interpret`: nothing without a second field, else the first two fields and whether some later field is `oneshot` ignoring ASCII case |
| QueueParameters.InterpretFailsWithoutSeparator | src/interop/queue_params.rs:10-12 | parsing fails exactly when the input has no `|` |
| QueueParameters.FirstField | src/interop/queue_params.rs:11 | the first field is the input up to its first `|`, or all of it |
| QueueParameters.InterpretFields | src/interop/queue_params.rs:11-12 | the file name is the text before the first `|`, the section the text up to the next `|` or the end; neither is trimmed and either may be empty |
| QueueParameters.InterpretJoin | src/interop/queue_params.rs:9-26 | for a file name, section and flags without `|`, parsing their join gives them back, with one-shot set exactly when some flag is `oneshot` ignoring case, whatever the order or repetition |
| QueueParameters.InterpretSplit | src/interop/queue_params.rs:10-25 | an input with at least two fields parses to its first two fields, one-shot exactly when some later field is `oneshot` |
| QueueParameters.RequestFields | src/interop/queue_params.rs:10 | the fields of a request built from a file name, a section and flags without `|` are those parts, in order, none containing `|` |
| QueueParameters.JoinSmall | src/interop/queue_params.rs:10 | joining two or three fields puts one `|` between neighbours |
| QueueParameters.OneshotFlag | src/interop/queue_params.rs:17-19 | `ONESHOT` in capitals counts as the one-shot flag; no flags is not one-shot |
| QueueParameters.InterpretPlainExample | src/interop/queue_params.rs:9-26 | `f|s` parses to `f`, `s`, not one-shot |
| QueueParameters.InterpretOneshotExample | src/interop/queue_params.rs:9-26 | `f|s|ONESHOT` parses to `f`, `s`, one-shot |
| Interop.PairEq | src/interop/global_state.rs:69-74 | `PartialEq::eq`: both fields equal ignoring ASCII case; `EqConsistentWithHash` and `PairEqIsEquivalence` state its properties |
| Interop.HashInput | src/interop/global_state.rs:78-83 | what `Hash::hash` feeds the hasher: both fields lowercased; `EqConsistentWithHash` ties it to `PairEq` |
| Interop.EqConsistentWithHash | src/interop/global_state.rs:69-83 | two keys are equal exactly when the values fed to the hasher are equal, so equal keys hash alike |
| Interop.PairEqIsEquivalence | src/interop/global_state.rs:69-76 | key equality is reflexive, symmetric and transitive, as `Eq` requires |
| Interop.Resolve | src/interop/global_state.rs:48-58 | the engine gets the first section named as requested, ignoring case; an error naming the section when the file has none; an error naming the file when it is not cached |
| Interop.GlobalState.constructor | src/interop/global_state.rs:9-17 | empty path and one-shot set, an idle engine with default options, an empty cache |
| Interop.GlobalState.FullFilename | src/interop/global_state.rs:21-23 | the full name is the base path, then the requested name, then `.adlib` |
| Interop.FullFilenameInjective | src/interop/global_state.rs:21-23 | different requested names give different full names |
| Interop.GlobalState.Preload | src/interop/global_state.rs:25-27 | the cache preloads the full name of the file |
| Interop.GlobalState.RecordOneShot | src/interop/global_state.rs:42 | the key is added, and `true` reported, exactly when no equal key was recorded |
| Interop.GlobalState.Queue | src/interop/global_state.rs:33-59 | the file is preloaded; a one-shot request whose key was recorded leaves the set and the engine untouched; a first one-shot key is recorded before the lookup; other requests leave the set alone; otherwise the engine state becomes `Queued` with the resolved dialogue |

## Left out

- `src/lib.rs` (the C entry points, the global mutable state and C string conversions), `src/interop/iter_wrapper.rs` and `src/talker.rs` are not part of this model: they are foreign-function glue and a record without behaviour.
- File reading in `DialogueFile::parse`: the file's lines are a parameter, and a file that cannot be read is `None`. The progress messages printed while parsing are not modelled.
- Dialogues.Parse: byte offsets are treated as character offsets, so a header whose last character is not ASCII (where the source's slice would panic) is not distinguished.
- Dialogues.Talker.Tick: requires a non-negative time step (the host always passes 1.0) and a dialogue with at least one line (the source indexes line 0 and panics otherwise). The panic of `CString::new` on a NUL character is not modelled, and the raw-pointer overwrite is modelled only by its effect: leading characters become spaces. Line lengths, the reveal slice `0..=floor(chars)` and the blanked count are counted in bytes in the source and in characters here, so on a line with non-ASCII characters the source reveals and fades per byte, and a reveal slice that ends inside a multi-byte character (for example the first tick of a line starting with `é`) panics in the source, while the model shows whole characters.
- Timers use exact `real` arithmetic instead of `f32` rounding.
- Engine: `DialogueCursor`, `AnnotatedString`, `Dialogue::from_error` and `dialogue_name_eq` are not defined in the modelled files. The cursor is its dialogue, the steps taken and the steps left; a fresh cursor's step count is a parameter `steps`. The snapshot is the dialogue and position it was taken at. An error dialogue is its message. Two error dialogues are the same when their messages are equal.
- Interop.GlobalState.Queue: the shown `DialogueCache::get` unwraps, while the caller expects an option; the model's lookup returns an option (`Lookup`). Because `preload` unwraps the parse first, the missing-file error of `Resolve` is never reached through `Queue`.
- `GlobalState::iter_wrapper` is not modelled: only `lib.rs` uses it.
