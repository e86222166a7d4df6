# A verified model of the After flow interpreter

"After" is a small browser app. It talks the user through a scripted
conversation and keeps a dated journal. This project models its core,
`res/script.js`, in Dafny:

- the template renderer `renderTextWithCtx`, which fills `{identifier}`
  placeholders from a context;
- `FlowRunner.step`, one node of a flow graph: messages, the four input
  kinds, branch and goto;
- `FlowRunner.run`, the loop that walks a named sequence and follows string
  jumps;
- the session start, which seeds the context from four stored answers and
  picks the `returning` or `firstTime` flow;
- the journal: `getJournal`, `saveJournal`, the Save button handler and the
  entry list (newest first, at most 200 entries, 80-character previews).

Modules:

- `Wrappers`: `Option`.
- `JsValues`: context values, `String(v)`, truthiness and `trim`.
- `Template`: the renderer.
- `Flow`: nodes, the input acceptance rules and `Step`.
- `Runner`: the run loop, seeding and entry choice.
- `Journal`: the journal.

The screen is reduced to a log of the effects the interpreter asks for:
open a screen, show a line, show a typing indicator, fade. The typing
indicator is transient: it is removed before the next line appears, and a
fade clears the screen. So the log records requests, not what the screen
holds at any moment. The user is a
sequence of events: Enter with a text, the Skip button, or the option button
at some index. Each input node takes the first event its control accepts.
Events it ignores are dropped. When no event remains that it accepts, the
run stops with `AwaitingInput`. The source's loop has no bound, so `Loop`
takes a step budget and reports `OutOfFuel` when the budget is spent.

Three behaviours of the code that are easy to miss:

- A jump to a sequence that does not exist ends the run with
  `MissingTarget`. Line 501 sets `seq` to `undefined`, and line 498 then
  throws on `seq.length`. The rest of the page start (`showAfterJournalUI`)
  is never reached.
- A node of unknown type is skipped: `step` returns `undefined` and the
  loop advances by one.
- The journal prompt `promptJournal` at lines 513-554 is inside a comment,
  so the flow never asks for a journal entry. It is not modelled.

## Model

| member | source | states |
|---|---|---|
| JsValues.Trim | res/script.js:280 | `trim` returns the infix of the text between its leading and trailing white space (ECMAScript WhiteSpace and LineTerminator). Both ends of the result are non-space, and the result is empty exactly when the text is all white space |
| JsValues.TrimIdempotent | res/script.js:132 | trimming twice is trimming once |
| Template.PlaceholderAt | res/script.js:230 | the placeholder a text starts with is a `{`, one or more word characters `[A-Za-z0-9_]`, and `}` |
| Template.PlaceholderAtComplete | res/script.js:230 | every text that starts with `{k}` for an identifier `k` is recognised as the placeholder `k` (the greedy `\w+` cannot stop early) |
| Template.UnparsePieces | res/script.js:230 | cutting a template into literal characters and whole placeholders loses nothing: the pieces spell the template |
| Template.RenderIsPiecewise | res/script.js:229-234 | rendering replaces each placeholder on its own: a `{k}` with a non-null `ctx[k]` becomes `String(ctx[k])`, every other `{k}` stays verbatim with its braces, and every other character is copied |
| Template.RenderUnboundIsIdentity | res/script.js:229-234 | a template none of whose placeholders the context binds renders as itself |
| Template.RenderWithoutContext | res/script.js:229 | with the default empty context every template renders as itself |
| Template.RenderReadsOnlyHoleKeys | res/script.js:231-232 | rendering reads the context only at the template's placeholder keys |
| Template.RenderDoesNotRescan | res/script.js:230-233 | a leading `{k}` becomes its substitution exactly as it is, and the scan resumes after the closing brace: substituted text is never scanned again, even when it looks like a placeholder |
| Template.RenderScan | res/script.js:229-234 | the left-to-right scan loop computes the rendering |
| Flow.Accept | res/script.js:270-398 | free text resolves exactly on an Enter whose trimmed text is not empty, with that trimmed text. The row input also resolves on Skip, with `""` as skipped. The date input resolves exactly on a non-empty value, with that value. A choice resolves exactly on a press of one of its options, with that option's value |
| Flow.FirstAccepted | res/script.js:278-284 | the position of the first event the control accepts, or none exactly when it accepts no remaining event |
| Flow.Await | res/script.js:270-395 | a control resolves exactly once, on the first event it accepts. Ignored events before it are dropped and later events are kept for later steps |
| Flow.AcceptRowInput | res/script.js:322-327 | the row input resolves with `("", skipped)` on Skip. An Enter is accepted exactly when its trimmed text is not empty, and then resolves with that trimmed text. An option press is ignored |
| Flow.BoundContext | res/script.js:423-426 | a messages node renders with the full context, or with `bind`: exactly the bound ids the context holds, with their values. Missing ids are left out, not defaulted |
| Flow.BindRestrictsRendering | res/script.js:423-427 | with `bind`, a line whose placeholders are all bound renders as with the full context, and a line that names no bound id keeps every placeholder verbatim |
| Flow.Interleave | res/script.js:245-261 | lines are shown in order with a typing indicator between consecutive lines and none after the last |
| Flow.MessagesEffects | res/script.js:427-431 | a messages node opens a fresh screen, then shows its rendered lines with typing indicators between them. A fade comes last, only after every line, and exactly when the node asks for autofade and is not sticky |
| Flow.MessagesShowRenderedLines | res/script.js:240-247 | the lines a messages node shows are its bank entry (no lines when the key is missing), each rendered with the bound context |
| Flow.ApplyAnswer | res/script.js:434-475 | an answer is stored under the node's id (for a row input also `<id>Provided`). A skipped row input stores `defaultOnSkip`, or `"them"` when that is unset or empty, with `Provided` false. Only those keys change and none is removed. The store changes only at `persistKey`, plus `afterName` for the `name` input and `afterExName` for the `ex` row input, each set to `String` of the stored answer |
| Flow.RowInputAnswer | res/script.js:444-456 | a row input step stores the skip default and `false` when the accepted event is Skip, and the trimmed non-empty text and `true` when it is Enter |
| Flow.BranchTarget | res/script.js:478-485 | with `cases`, the jump is `cases[String(ctx[when])]` when that is a non-empty string, else `else` (possibly none). Without `cases`, the jump is `ifTrue` or `ifFalse` by the truthiness of `ctx[when]`. Every jump is a declared target |
| Flow.StepInput | res/script.js:434-475 | an input step blocks exactly when no remaining event resolves its control. When the event at position `i` is the first the control accepts, the step stores that resolution (through `ApplyAnswer`), fades, and leaves exactly the events after `i`. It writes only the node's ids and persistence keys |
| Flow.Step | res/script.js:420-491 | a step blocks only on an input with no accepted event. Only branch and goto return a jump, and it is one of the node's declared targets |
| Flow.StepFrame | res/script.js:420-491 | a step changes the context only at the node's ids and the store only at its persistence keys, removes no key, only appends effects, and consumes events only on an input node |
| Runner.Loop | res/script.js:498-506 | a run takes at most its budget of steps, and a `MissingTarget` end names a sequence the graph does not have |
| Runner.Run | res/script.js:493-497 | an absent entry sequence runs no step and changes nothing |
| Runner.RunFlow | res/script.js:493-507 | the loop written with `seq`, `i` and `continue` computes `Run` |
| Runner.LoopFuelMonotone | res/script.js:498-506 | a run that ends within some budget ends the same way with any larger one |
| Runner.LoopEffectsGrow | res/script.js:498-506 | the effect log of a run only grows: a run never takes back a request it made |
| Runner.LoopChangesOnlyDeclaredKeys | res/script.js:434-475 | a run writes the context only at the ids of the graph's input nodes and the store only at their persistence keys, and removes nothing |
| Runner.MissingTargetIsDeclared | res/script.js:499-503 | a run that fails on a missing sequence failed on a target some branch or goto of the graph declares |
| Runner.MessagesOnlyRun | res/script.js:498-506 | a sequence of messages nodes runs each node once, in order, and ends at its end with the context and store unchanged |
| Runner.SelfLoopNeverEnds | res/script.js:499-503 | a sequence that jumps to itself never ends: it spends every budget |
| Runner.MessagesThenMissingGoto | res/script.js:498-503 | a messages node followed by a goto to a missing sequence shows the node and fails on that target after two steps |
| Runner.GotoMissingAfterMessages | res/script.js:498-503 | three autofading lines and a goto to a missing sequence: three lines with typing indicators between them, a fade, then the failure |
| Runner.Seed | res/script.js:577-584 | the session context holds `name`, `ex`, `endDate` and `mood` exactly when the matching stored answer is a non-empty string, with that value, and nothing else |
| Runner.EntryFlow | res/script.js:587 | the session enters `returning` exactly when a name is stored (and seeded), and `firstTime` otherwise |
| Runner.Start | res/script.js:576-588 | with no entry sequence, the session starts and ends with the seeded context and the store as it was |
| Runner.StartKeepsSeed | res/script.js:576-588 | the seeded answers survive the first run unless an input node of the graph overwrites them, and the store only gains the graph's persistence keys |
| Journal.GetJournal | res/script.js:10-20 | the journal is the stored array, or `[]` when nothing is stored, the text does not parse, or the document is not an array |
| Journal.SaveJournal | res/script.js:22-30 | saving reports whether the write succeeded. A successful write always stores an array, `[]` in place of a non-array |
| Journal.SaveThenGet | res/script.js:10-30 | what `saveJournal` writes is what `getJournal` reads back |
| Journal.Without | res/script.js:146 | the filter keeps exactly the entries of other dates and never lengthens the journal |
| Journal.WithoutAppend | res/script.js:146 | filtering a concatenation filters each part, so the kept entries stay in their order and keep their multiplicity |
| Journal.SaveEntry | res/script.js:130-149 | Save is refused exactly when the date is empty or the text is all white space. It throws when the stored document is not an array. Otherwise it stores an array |
| Journal.SaveEntryReplaces | res/script.js:140-149 | after a save the journal ends with the new entry (date, trimmed text), holds no other entry for that date, and keeps the entries of other dates in order |
| Journal.SaveEntryOverwrites | res/script.js:145-149 | saving a date twice keeps only the second text, as if the first save had not happened |
| Journal.SaveEntryIdempotent | res/script.js:130-149 | saving the same entry again changes nothing |
| Journal.LexLeTotal | res/script.js:106 | any two dates are comparable |
| Journal.LexLeTrans | res/script.js:106 | the date order is transitive |
| Journal.LexLeAntisymmetric | res/script.js:106 | two dates each no later than the other are equal |
| Journal.Insert | res/script.js:106 | inserting into a newest-first list keeps it newest first and adds exactly the one entry |
| Journal.SortNewestFirst | res/script.js:106 | the sort orders the entries newest date first and is a permutation of them |
| Journal.FirstLine | res/script.js:116 | the first line is the text up to its first line break: a prefix without a line break that ends at a break or at the end |
| Journal.Excerpt | res/script.js:116 | the excerpt is the first line cut to at most 80 characters, as many as the line has up to that width |
| Journal.Preview | res/script.js:116-119 | a preview is the excerpt followed by `...` exactly when the whole text is longer than 80 characters |
| Journal.ShortTextPreviewsAsItself | res/script.js:116-119 | a one-line text of at most 80 characters is shown whole |
| Journal.Shown | res/script.js:101-108 | the list shows `min(n, 200)` entries of the journal, newest first, and every entry left out is no newer than any shown entry |
| Journal.RenderList | res/script.js:101-125 | the list is the "no entries" notice exactly when the journal is empty. Otherwise it has one row per shown entry, with its date and preview |
| Journal.SavedEntryIsListed | res/script.js:130-155 | an entry saved into a journal of fewer than 200 entries appears in the list with its date and preview |

## Left out

- The screen manager (`ScreenManager`): DOM nodes, timers, the overflow hint and the fade guard. The model keeps only the effects a step asks for.
- The DOM construction inside the input controls, the placeholder and skip-button labels, and focus handling. What remains is the rule by which each control accepts an event.
- Loading `messages.json` and `flows.json`, and the `loadFlows` cache. The loaded maps are parameters.
- The typing-indicator timing (`wait`, `setTimeout`, the stagger delay).
- `localStorage` beyond a map from keys to strings, and the debug reset button.
- `Date` and `getTodayKey`: the journal's date is a parameter.
- `JSON.parse` and `JSON.stringify`: a journal slot holds nothing, unparsable text, or a parsed document.
- The commented-out `promptJournal` block.
- `showAfterJournalUI` markup and the confirmation message timers.
- `Template.Render`: `k in ctx` in the source also sees inherited properties such as `toString`. The model's context holds only its own keys.
- `Flow.BranchTarget`: `cases` holds only its own keys. In the source, `cases[v]` for a value whose string is an inherited property name (`constructor`, `toString`, ...) finds an inherited function. `step` then returns that non-string, and the run moves to the next node. The model takes the `else` jump instead.
- `Runner.Loop`: `flows` holds only its own keys. In the source, a jump to an inherited property name finds the inherited value. Depending on its `length`, the loop then ends or the next `step` throws. The model reports `MissingTarget`.
- `Flow.MessagesShowRenderedLines`: the message bank holds only its own keys. In the source, `data[key]` for an inherited property name is a function, and `.map` on it throws. The model shows no lines.
- `JsValues.Value`: numbers and `undefined` as context values are not modelled. A choice option's value is a string, a boolean or `null`.
- `Journal.LexLe`: `localeCompare` is locale-aware. The model orders dates by character code, which agrees on `YYYY-MM-DD` strings.
- `Journal.Preview`: lengths and `slice(0, 80)` count characters, not UTF-16 code units.
- `Journal.Excerpt`: the cut at 80 counts characters. `slice(0, 80)` counts UTF-16 code units, so a first line with characters outside the Basic Multilingual Plane (emoji, say) is cut earlier in the source. The source can even split a surrogate pair.
- `Journal.ShortTextPreviewsAsItself`: "at most 80" counts characters. A one-line text of 41 emoji is 41 characters but 82 UTF-16 code units. The source shows 40 emoji and `...`, and the model shows it whole.
- `Journal.SortNewestFirst`: the sort is stable by construction, but stability is not stated as a property.
- `Journal.SaveEntry`: stored elements that are not `{date, text}` records are not modelled. The source throws on them in the list (`b.date.localeCompare`, `entry.text.split`). A full store on the Save button's write is not modelled either.
- `Runner.Loop`: the source loop has no bound. The step budget leaves runs longer than the budget as `OutOfFuel`.
