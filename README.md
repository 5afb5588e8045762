# agenticDash task dashboard, modelled in Dafny

agenticDash is a React dashboard for agent tasks. A submitted task is posted
to an AG-UI backend. The response is a server-sent event stream, and its
events drive the task's record through running, streaming and completed.
The grid groups the records by status, and each card renders one record.
This project models the logic beneath that UI and proves what it keeps
true:

- `TaskModel` (Task.dfy): the `Task` record, with a closed five-value
  status and an `Option` for each optional field. `startTime` is a
  millisecond count.
- `Events`: the five AG-UI event variants, plus `Other` for a decoded
  object with any other `type` tag. The parser never checks the tag, so
  such objects still reach the reducer.
- `FrameParser`: `parseSSEBuffer`.
  - The buffer is split on blank lines.
  - In each part, the first `data: ` line is decoded.
  - Other parts are dropped, and so is any text that does not decode.
  - The loop is a method proved equal to the function `ParseBuffer`.
- `Reducer`: `handleEvent`, the per-event transition table applied to the
  task with the matching id, and its fold over a sequence of events.
- `ReadLoop`: the buffer loop of `addTask`, written on values as `Feed`.
  - Each chunk is appended to the buffer, and the whole buffer is parsed.
  - If at least one event came out, the events are delivered and the
    buffer is emptied. Otherwise the buffer is kept.
  - `FeedInvariant` proves that every received character lies in exactly
    one discarded buffer or in the held buffer, so no text is delivered
    twice.
  - `ChunkBoundaryLosesFrame` proves that delivery depends on where the
    chunks are cut. Sent as one chunk, two frames deliver two events. Cut
    inside the second frame's `data: ` prefix, after its first two
    characters `da`, they deliver only the first event. The first chunk
    releases the first event, and emptying the buffer then discards the
    `da`. The rest of the second frame no longer starts with `data: `.
- `Dashboard`: the component's state as a class, `tasks` plus the buffer
  parser.
  - Methods cover submission, event handling, the error path and the
    manual status override.
  - A `RunStream` object holds the `buffer` of one submission. Its
    `FeedChunk` and `ReadAll` are the `while (true)` loop, proved against
    `Feed` and the reducer fold.
  - `AddTaskSpec` is the whole of `addTask` on values.
- `TaskGrid`:
  - `getTasksByStatus`;
  - the active and completed sections, sorted newest first (sorted, a
    stable permutation, and together an exact partition of the list);
  - the overview counts;
  - the set of expanded three-card rows as a class.
- `TaskCard`: `formatTime`, the badge and dot colours, the status label,
  the body text fallback, the action buttons, and chip versus full card.
- `Strings` and `Wrappers`: the JavaScript string operations the code
  uses (`split`, `startsWith`, `replace`, and the number-to-text
  conversion of template strings), and `Option`. `IndexOf`, `Join` and
  `Concat` are helpers for stating and proving facts about them; the
  source itself calls neither `indexOf` nor `join`.

JSON decoding is a parameter `decode: string -> Option<Event>`. `None`
stands for `JSON.parse` throwing. Ids, timestamps, received chunks and how
the stream ended are parameters too. The `Dashboard` methods are proved
for any buffer parser. The constructor fixes that parser to
`parseSSEBuffer` with the given decoder, and `FeedRestSilent`,
`ChunkBoundaryLosesFrame` and `SubmitCompletes` are stated for that parser.

## Model

| member | source | states |
|---|---|---|
| TaskModel.UpdateMatching | src/components/TaskDashboard.tsx:82-84 | Same length. Each task with the id becomes `f(task)`, and every other task is kept. |
| TaskModel.UpdateUnknown | src/components/TaskDashboard.tsx:84 | An update for an id that no task carries changes nothing. |
| FrameParser.FirstDataLine | src/components/TaskDashboard.tsx:62 | `find`: the index of the first line starting with `data: `. No earlier line starts with it, and the result is absent exactly when no line does. |
| FrameParser.FramePayload | src/components/TaskDashboard.tsx:62-64 | A payload, when there is one, is the first line of the part that starts with `data: `, with that prefix stripped. There is none exactly when no line starts with `data: `. |
| FrameParser.FrameEvent | src/components/TaskDashboard.tsx:62-70 | The part's payload, decoded. A part without a data line, or whose payload does not decode, gives nothing. It states no contract of its own: `ParseFramesOne`, `DataLinePayload` and `MalformedFrameTolerance` state its behaviour in the parse. |
| FrameParser.ParseFrames | src/components/TaskDashboard.tsx:61-72 | At most one event per part. |
| FrameParser.ParseBuffer | src/components/TaskDashboard.tsx:58-74 | At most one event per blank-line-separated part of the buffer. |
| FrameParser.ParseSSEBuffer | src/components/TaskDashboard.tsx:58-74 | The imperative loop returns exactly `ParseBuffer(buffer)`. |
| FrameParser.ParseFramesAppend | src/components/TaskDashboard.tsx:61-72 | Parsing distributes over concatenation of parts, so a part never affects later parts and events keep part order. |
| FrameParser.ParseFramesOne | src/components/TaskDashboard.tsx:62-70 | One part contributes exactly its own event, if it has one. |
| FrameParser.AllFramesDecode | src/components/TaskDashboard.tsx:61-72 | When every part decodes: one event per part, the i-th event from the i-th part. |
| FrameParser.SplitJoinFrames | src/components/TaskDashboard.tsx:60 | Clean frames joined with blank lines split back into the same frames. |
| FrameParser.JoinedFrames | src/components/TaskDashboard.tsx:58-74 | A buffer of clean frames parses to those frames' events, in order. |
| FrameParser.MalformedFrameTolerance | src/components/TaskDashboard.tsx:63-70 | Good, undecodable, good: exactly the two good events. The bad part does not stop the third. |
| FrameParser.DataLinePayload | src/components/TaskDashboard.tsx:62-64 | A one-line part `data: <json>` yields exactly `json` as its payload. |
| Reducer.ApplyEvent | src/components/TaskDashboard.tsx:85-126 | Id, name, agent, start time and error text are kept. Progress is kept or becomes 0, 25, 50 or 100, so the bound 0..100 is preserved. Only RUN_STARTED sets running, only the two end events set completed, and an unrecognised tag changes nothing. |
| Reducer.HandleEvent | src/components/TaskDashboard.tsx:81-129 | Same length. Identity fields are kept and the progress bound is preserved. The task with the id takes the transition, and every other task is unchanged. |
| Reducer.ApplyAll | src/components/TaskDashboard.tsx:190 | Applying events in order never changes a task's identity or error text. |
| Reducer.FoldEvents | src/components/TaskDashboard.tsx:190 | Successive `handleEvent` calls: the task with the id gets all events applied in order, and every other task is untouched. |
| Reducer.FoldEventsAppend | src/components/TaskDashboard.tsx:189-191 | Folding two batches one after the other is folding their concatenation. |
| Reducer.FoldKeepsRange | src/components/TaskDashboard.tsx:92-122 | Any sequence of events keeps every task's progress within 0..100. |
| Reducer.UnknownTaskNoOp | src/components/TaskDashboard.tsx:84 | An event for an id that no task carries leaves the whole list unchanged. |
| Reducer.UnrecognisedEventNoOp | src/components/TaskDashboard.tsx:124-125 | An event with an unrecognised tag leaves the whole list unchanged. |
| Reducer.RunStartedRow | src/components/TaskDashboard.tsx:86-94 | RUN_STARTED: running, ids from the event, progress 0, "Starting task...". Messages and error text are kept. |
| Reducer.MessageStartRow | src/components/TaskDashboard.tsx:96-102 | TEXT_MESSAGE_START: message and description become "", progress 25. Status, accumulator and ids are kept. |
| Reducer.MessageContentRow | src/components/TaskDashboard.tsx:104-110 | TEXT_MESSAGE_CONTENT: the delta is appended to the accumulator (absent counts as "") and to the description, progress 50. Status and message are kept. |
| Reducer.MessageEndRow | src/components/TaskDashboard.tsx:112-119 | TEXT_MESSAGE_END: the message becomes the accumulator (or ""), the accumulator becomes absent, completed at 100. The description is kept. |
| Reducer.RunFinishedRow | src/components/TaskDashboard.tsx:121-122 | RUN_FINISHED changes exactly status (completed) and progress (100). |
| Reducer.StreamAccumulates | src/components/TaskDashboard.tsx:96-110 | After a start and any number of deltas: the accumulator is the previous one followed by all the deltas, the description is the deltas alone, and the message is "". |
| Reducer.MessageCompletes | src/components/TaskDashboard.tsx:96-119 | Start, deltas, end: the message is the accumulated text, the accumulator is cleared, and the task is completed at 100. |
| Reducer.HiThereScenario | src/components/TaskDashboard.tsx:96-119 | START, "hi", " there", END: completed, 100, message "hi there", no accumulator. |
| ReadLoop.EmptyBufferNoEvents | src/components/TaskDashboard.tsx:58-74 | An empty buffer parses to no events. |
| ReadLoop.Feed | src/components/TaskDashboard.tsx:181-193 | The loop after some chunks, from an empty buffer, with at most one discarded buffer per chunk. The held buffer is empty or parses to no event. The full invariant is `FeedInvariant`. |
| ReadLoop.FeedInvariant | src/components/TaskDashboard.tsx:181-193 | The discarded buffers followed by the held buffer are exactly the received text. Delivery is exactly the parse of each discarded buffer, so nothing is delivered twice. Each discarded buffer released an event, and a non-empty held buffer releases none. |
| ReadLoop.FeedRestSilent | src/components/TaskDashboard.tsx:188-192 | With `parseSSEBuffer`, the buffer still held never parses to an event. |
| ReadLoop.FeedExtends | src/components/TaskDashboard.tsx:186-192 | One more chunk appends exactly the events of `buffer + chunk`. The buffer becomes "" if any came out, else keeps all the text. |
| ReadLoop.FeedOne | src/components/TaskDashboard.tsx:186-192 | A first chunk delivers its own events, and is kept whole when it has none. |
| ReadLoop.FeedTwo | src/components/TaskDashboard.tsx:186-192 | If the first chunk releases events, two chunks deliver the events of each chunk separately. |
| ReadLoop.TwoFramesBuffer | src/components/TaskDashboard.tsx:58-74 | Two `data:` frames, each ended by a blank line, parse to both events in order. |
| ReadLoop.ChunkBoundaryLosesFrame | src/components/TaskDashboard.tsx:186-192 | The same text delivers both events as one chunk, but only the first when cut inside the second frame's prefix. |
| Dashboard.NewTask | src/components/TaskDashboard.tsx:141-151 | A new record has progress within bounds and no message, accumulator or error text. |
| Dashboard.MarkFailed | src/components/TaskDashboard.tsx:196 | Same length. Each task with the id becomes an error carrying the message, with every other field kept. Other tasks are unchanged, and the progress bound holds. |
| Dashboard.SetStatus | src/components/TaskDashboard.tsx:200-202 | Same length. Each task with the id takes the status, with every other field kept (error text and accumulator included). Other tasks are unchanged. |
| Dashboard.SetStatusIdempotent | src/components/TaskDashboard.tsx:200-202 | Setting the same status twice is setting it once. |
| Dashboard.SetStatusUnknown | src/components/TaskDashboard.tsx:201 | An override for an id that no task carries changes nothing. |
| Dashboard.ActionResumesTask | src/components/TaskCard.tsx:144-154 | A card button's request sets that card's task back to running and changes nothing else of it. Only an error or needs-input task has a button. |
| Dashboard.DisplayFollowsStream | src/components/TaskCard.tsx:126 | While a message streams, the card body shows everything streamed so far. |
| Dashboard.DisplayAfterEnd | src/components/TaskCard.tsx:126 | After the message ends, the card body shows the finished message. |
| Dashboard.AddTaskSpec | src/components/TaskDashboard.tsx:132-198 | Exactly one record is added, at the end, and earlier tasks are kept when the id is new. The record keeps its id, name, agent and start time. After a failure it is an error carrying the message; otherwise it has no error text. |
| Dashboard.SubmitFails | src/components/TaskDashboard.tsx:141-152 | A request that fails before any chunk: the initial record (running at 0, "Initializing task...", "TJ's Agent") with status error and the message. |
| Dashboard.AddTaskRecord | src/components/TaskDashboard.tsx:141-193 | Without a failure, the new record is the initial one with every delivered event applied in order. |
| Dashboard.RunLifecycle | src/components/TaskDashboard.tsx:86-122 | Run started, one message streamed and ended, run finished: completed, 100, the run's ids, the accumulated text as message. |
| Dashboard.SubmitCompletes | src/components/TaskDashboard.tsx:132-193 | A stream delivering one whole run leaves the new task completed with the streamed text and the run's ids. |
| Dashboard.ApplyAllAppend | src/components/TaskDashboard.tsx:190 | Applying two batches in turn is applying their concatenation. |
| Dashboard.ApplyAllKeepsIds | src/components/TaskDashboard.tsx:96-122 | Events other than RUN_STARTED never change the run and thread ids. |
| Dashboard.Dashboard.constructor | src/components/TaskDashboard.tsx:77 | The task list starts empty, and the parser is `parseSSEBuffer` with the decoder. |
| Dashboard.Dashboard.ActiveTaskCount | src/components/TaskDashboard.tsx:216 | At most the number of tasks, and zero exactly when no task is running. |
| Dashboard.Dashboard.HandleEvent | src/components/TaskDashboard.tsx:81-129 | The state becomes the reducer's list, and the progress bound is kept. |
| Dashboard.Dashboard.HandleAll | src/components/TaskDashboard.tsx:190 | The loop applies the events in order: the state becomes their fold. |
| Dashboard.Dashboard.UpdateStatus | src/components/TaskDashboard.tsx:200-202 | The state becomes `SetStatus` of the old list. |
| Dashboard.Dashboard.Fail | src/components/TaskDashboard.tsx:194-197 | The state becomes `MarkFailed` of the old list. |
| Dashboard.Dashboard.Submit | src/components/TaskDashboard.tsx:141-181 | The new record is appended, and a fresh stream with an empty buffer is opened for its id. |
| Dashboard.Dashboard.AddTask | src/components/TaskDashboard.tsx:132-198 | The final state is `AddTaskSpec` of the old list, the chunks and the outcome. |
| Dashboard.RunStream.constructor | src/components/TaskDashboard.tsx:181 | The stream of a submission starts with `buffer = ""`, having received nothing. |
| Dashboard.RunStream.ReadAll | src/components/TaskDashboard.tsx:183-193 | After all the chunks, the task list is the old one with every event `Feed` delivers applied, and the buffer is `Feed`'s held text. |
| Dashboard.RunStream.FeedChunk | src/components/TaskDashboard.tsx:184-192 | The events are the parse of the old buffer plus the chunk. The buffer is emptied if any came out, else extended. The list is the fold of these events, and delivery grows by exactly them. |
| TaskGrid.TasksByStatus | src/components/TaskGrid.tsx:13 | Only tasks with the status, never more than the list. |
| TaskGrid.TasksByStatusEmpty | src/components/TaskGrid.tsx:13 | Empty exactly when no task has the status. |
| TaskGrid.TasksByStatusCount | src/components/TaskGrid.tsx:13 | Each task occurs as often as in the list when it has the status, never otherwise. |
| TaskGrid.TasksByStatusAppend | src/components/TaskGrid.tsx:13 | The filter keeps list order: filtering a concatenation is concatenating the filters. |
| TaskGrid.OverviewAccountsForAll | src/components/TaskGrid.tsx:15-64 | The four overview counts plus the paused count equal the number of tasks. |
| TaskGrid.StatusOverview | src/components/TaskGrid.tsx:15-63 | The four shown counts never exceed the number of tasks, and the running count is zero exactly when no task runs. |
| TaskGrid.OverviewCounts | src/components/TaskGrid.tsx:15-19 | The five per-status lists together have exactly as many tasks as the list. |
| TaskGrid.Insert | src/components/TaskGrid.tsx:22 | Inserting into a newest-first list keeps it newest first and adds exactly that task. |
| TaskGrid.SortNewestFirst | src/components/TaskGrid.tsx:22-25 | The comparator sort: newest first, and a permutation of its input. |
| TaskGrid.InsertStable | src/components/TaskGrid.tsx:22 | Inserting puts the task after every task of its own start time, and those keep their order. |
| TaskGrid.SortStable | src/components/TaskGrid.tsx:22-25 | The sort is stable, as `Array.prototype.sort` must be: the tasks of any one start time come out in the order they went in. |
| TaskGrid.ActiveTasks | src/components/TaskGrid.tsx:22 | `activeTasks`: newest first, and no completed task. Its exact contents are stated by `ActiveMembers`. |
| TaskGrid.SortedCompletedTasks | src/components/TaskGrid.tsx:25 | `sortedCompletedTasks`: newest first, and completed tasks only. Its exact contents are stated by `CompletedMembers`. |
| TaskGrid.SectionTies | src/components/TaskGrid.tsx:22-25 | Tasks with equal start times keep their order: running, needs input, error, paused (each group in list order) in the active section, and list order in the completed section. |
| TaskGrid.ActiveMembers | src/components/TaskGrid.tsx:15-22 | A task is in the active section as often as in the list when it is not completed, never otherwise. |
| TaskGrid.CompletedMembers | src/components/TaskGrid.tsx:18-25 | A task is in the completed section as often as in the list when it is completed, never otherwise. |
| TaskGrid.SectionsPartition | src/components/TaskGrid.tsx:15-25 | Both sections are newest first, and together they hold every task exactly once. |
| TaskGrid.RowOf | src/components/TaskGrid.tsx:28-41 | `Math.floor(index / 3)`: the index lies in that row's three slots. |
| TaskGrid.RowMates | src/components/TaskGrid.tsx:40-43 | Two indices share a row's state exactly when they fall in the same three slots. |
| TaskGrid.Grid.IsRowExpanded | src/components/TaskGrid.tsx:40-43 | Whether the index's row is in the expanded set. `RowMates` and `RowView` state what follows for the cards. |
| TaskGrid.RowView | src/components/TaskGrid.tsx:27-85 | Grid cards are collapsible and, once the card's effect has synced, open exactly when their row is expanded. After an expand or collapse request, every card of that row, in either section, is a full card or a chip accordingly. Every other card keeps its view. |
| TaskGrid.Grid.constructor | src/components/TaskGrid.tsx:11 | No row is expanded at first. |
| TaskGrid.Grid.HandleCardExpand | src/components/TaskGrid.tsx:27-38 | The card's row is added when expanding and removed otherwise. Every other row's state is unchanged. |
| TaskCard.DotMatchesBadge | src/components/TaskCard.tsx:32-81 | The chip's dot (green fallback) and the badge agree for every status. It is green exactly for completed. |
| TaskCard.BadgeHue | src/components/TaskCard.tsx:32-47 | `getStatusColor` reduced to its hue family. It states no contract of its own: it is compared with the dot in `DotMatchesBadge`. |
| TaskCard.DotHue | src/components/TaskCard.tsx:81 | The chip's ternary chain with green as the fallback. It states no contract of its own: `DotMatchesBadge` states its result for every status. |
| TaskCard.StatusLabel | src/components/TaskCard.tsx:119 | `task.status.replace("_", " ")`. It states no contract of its own: `StatusLabels` and `NeedsInputLabel` state its value for each status. |
| TaskCard.StatusLabels | src/components/TaskCard.tsx:119 | `needs_input` becomes "needs input", and every other status keeps its name. |
| TaskCard.NeedsInputLabel | src/components/TaskCard.tsx:119 | The underscore of `needs_input` becomes a space. |
| TaskCard.DisplayText | src/components/TaskCard.tsx:126 | The accumulator if non-empty, else the message if non-empty, else the description. |
| TaskCard.FormatTimeHours | src/components/TaskCard.tsx:66-72 | From an hour on: "{h}h {m}m ago", with h >= 1 the whole hours and 0 <= m < 60 the remaining minutes, in decimal. |
| TaskCard.FormatTimeMinutes | src/components/TaskCard.tsx:66-73 | Under an hour, and for a start in the future: "{minutes}m ago", with the floored minutes, possibly negative. |
| TaskCard.NestedFloor | src/components/TaskCard.tsx:69-70 | Flooring to minutes and then to hours gives the whole hours of the difference. The minutes modulo 60 are the whole minutes past the hour. |
| TaskCard.FormatTime | src/components/TaskCard.tsx:66-74 | `formatTime` at instant `now`. It states no contract of its own: `FormatTimeHours` and `FormatTimeMinutes` state its text in each branch. |
| TaskCard.ActionsOffered | src/components/TaskCard.tsx:144-154 | "Provide Input" exactly for needs input, "Retry" exactly for error, at most one button, and each asks to set the task running. |
| TaskCard.Actions | src/components/TaskCard.tsx:144-154 | The buttons of the full card. It states no contract of its own: `ActionsOffered` states which appear. |
| TaskCard.ActionRequest | src/components/TaskCard.tsx:145-151 | What a button passes to `onStatusUpdate`. It states no contract of its own: `ActionsOffered` and `ActionResumesTask` state the request and its effect. |
| TaskCard.View | src/components/TaskCard.tsx:77-101 | The compact chip when the card is collapsible and not open, else the full card. It states no contract of its own: `RowView` states the view of each grid card. |
| Strings.IndexOf | src/components/TaskDashboard.tsx:60 | The first occurrence of the separator, absent exactly when there is none. |
| Strings.Split | src/components/TaskDashboard.tsx:60-62 | `split` with a non-empty separator yields at least one piece. |
| Strings.JoinSplit | src/components/TaskDashboard.tsx:60 | Joining the pieces with the separator gives back the string. |
| Strings.SplitPiecesFree | src/components/TaskDashboard.tsx:60 | No piece contains the separator. |
| Strings.SplitFree | src/components/TaskDashboard.tsx:60-62 | A string without the separator splits into itself alone. |
| Strings.StartsWith | src/components/TaskDashboard.tsx:62 | `line.startsWith("data: ")`. It states no contract of its own: `FirstDataLine` and `FramePayload` state what follows from it for the parser. |
| Strings.ReplaceFirst | src/components/TaskCard.tsx:119 | `replace` of one character: only the first occurrence changes, and the length is kept. |
| Strings.ReplaceAbsent | src/components/TaskCard.tsx:119 | Without the character, `replace` changes nothing. |
| Strings.DecimalRoundTrip | src/components/TaskCard.tsx:72-73 | Reading the decimal text of a number back gives the number. |
| Strings.IntToString | src/components/TaskCard.tsx:72-73 | `${n}` of an integer: the decimal digits of a non-negative number, or a minus sign followed by the digits of its magnitude. |

## Left out

- Network and transport: `fetch`, `response.body`, `getReader`, `await`
  and `TextDecoder` are not modelled. The stream is the sequence of
  already decoded text chunks. An outcome says whether it ended normally
  or with an exception, with its message.
- Dashboard.Dashboard.AddTask: a failure is modelled as happening after
  all the received chunks. An exception after any prefix of the stream is
  this with that prefix as `chunks`. The source's `String(err)` is the
  message parameter.
- Events with missing fields are not modelled. An event with a
  recognised tag always carries all its fields. In the source, a
  `RUN_STARTED` object without `run_id` sets `runId` to `undefined`
  (src/components/TaskDashboard.tsx:90), where `Reducer.ApplyEvent`
  always writes `Some(run)`; the same holds for `thread_id`. A
  `TEXT_MESSAGE_CONTENT` without `delta` appends the text "undefined"
  to both the accumulator and the description
  (src/components/TaskDashboard.tsx:107-108), which the model cannot
  express either.
- JSON: `JSON.parse` is the `decode` parameter, and JSON syntax is not
  modelled. A decoded value that is not an object with a `type` tag (for
  example `null`) is out of scope. `Other` stands for an object with
  another tag.
- Ids and time: `Math.random().toString(36)` and `new Date()` are
  parameters. Id uniqueness is not guaranteed by the code and not
  assumed, except where a lemma names it as a precondition.
- React: each `setTasks` call is one atomic replacement of the list,
  applied in call order. `useState`, `useEffect` (the card's `isOpen`
  syncing) and re-rendering are not modelled.
- Rendering: JSX, class strings, icons and `console.error` are not
  modelled. Colours are reduced to the hue family.
- src/components/ChatInterface.tsx is not part of this model. It only
  trims the input before calling `addTask`.
- The `RunAgentInput` payload and `BACKEND_URL` are not modelled.
- Routing: events go to the submitting task's id, as in the code. The
  event's own `run_id` and `message_id` are kept in the events but never
  used to route.
- Concurrency: two submissions streaming at the same time interleave
  their `setTasks` calls. Each `RunStream` is verified on its own.
- The buffer parser: the dashboard's methods are proved for any buffer
  parser, not only `parseSSEBuffer`. The constructor fixes that parser,
  and the lemmas about `parseSSEBuffer` are stated separately.
- Chunk independence: the read loop is not indifferent to where the
  stream is cut. Emptying the buffer after any event
  (src/components/TaskDashboard.tsx:189-192) drops a partial trailing
  frame, and `ReadLoop.ChunkBoundaryLosesFrame` proves this. No lemma
  claims independence.
