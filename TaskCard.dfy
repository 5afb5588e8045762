/**
 * The pure helpers of a task card (src/components/TaskCard.tsx): elapsed
 * time text, the colour of the status badge and dot, the status label, the
 * text shown in the body, the action buttons, and chip versus full card.
 */
module TaskCard {
  import opened Wrappers
  import opened Strings
  import opened TaskModel

  /** The colour families the card uses for statuses. */
  datatype Hue = Blue | Green | Red | Amber | Slate

  /** `getStatusColor`: the badge colour of each status. */
  function BadgeHue(s: Status): Hue {
    match s
    case Running => Blue
    case Completed => Green
    case Error => Red
    case NeedsInput => Amber
    case Paused => Slate
  }

  /** The chip's status dot: a chain of tests with green as the fallback. */
  function DotHue(s: Status): Hue {
    if s == Running then Blue
    else if s == Error then Red
    else if s == NeedsInput then Amber
    else if s == Paused then Slate
    else Green
  }

  /** The chip's dot and the full card's badge always agree on the colour of a status. */
  lemma DotMatchesBadge(s: Status)
    ensures DotHue(s) == BadgeHue(s)
    ensures DotHue(s) == Green <==> s == Completed
  {
  }

  /** The status as the source spells it. */
  function StatusName(s: Status): string {
    match s
    case Running => "running"
    case Completed => "completed"
    case Error => "error"
    case NeedsInput => "needs_input"
    case Paused => "paused"
  }

  /** `task.status.replace("_", " ")`. */
  function StatusLabel(s: Status): string {
    ReplaceFirst(StatusName(s), '_', ' ')
  }

  /** Only `needs_input` changes, to "needs input"; every other label is the status name itself. */
  lemma StatusLabels(s: Status)
    ensures StatusLabel(NeedsInput) == "needs input"
    ensures s != NeedsInput ==> StatusLabel(s) == StatusName(s)
  {
    NeedsInputLabel();
    if s != NeedsInput {
      NoUnderscore(s);
      ReplaceAbsent(StatusName(s), '_', ' ');
    }
  }

  /** Every other status name is a single word. */
  lemma NoUnderscore(s: Status)
    requires s != NeedsInput
    ensures '_' !in StatusName(s)
  {
    match s
    case Running => assert StatusName(s) == "running";
    case Completed => assert StatusName(s) == "completed";
    case Error => assert StatusName(s) == "error";
    case Paused => assert StatusName(s) == "paused";
  }

  /** The one status whose name has an underscore. */
  lemma NeedsInputLabel()
    ensures StatusLabel(NeedsInput) == "needs input"
  {
    var ni := "needs_input";
    assert ni[..5] == "needs";
    assert ni[6..] == "input";
    ReplaceAt(ni, 5, '_', ' ');
    assert "needs" + [' '] + "input" == "needs input";
  }

  /** `task.streamingMessage || task.message || task.description`. */
  function DisplayText(t: Task): (r: string)
    ensures t.streamingMessage.GetOr("") != "" ==> r == t.streamingMessage.value
    ensures t.streamingMessage.GetOr("") == "" && t.message.GetOr("") != "" ==> r == t.message.value
    ensures t.streamingMessage.GetOr("") == "" && t.message.GetOr("") == "" ==> r == t.description
  {
    if t.streamingMessage.GetOr("") != "" then t.streamingMessage.value
    else if t.message.GetOr("") != "" then t.message.value
    else t.description
  }

  /** `formatTime(startTime)` at the instant `now`, both in milliseconds; `/` by a positive constant is `Math.floor`. */
  function FormatTime(startTime: int, now: int): string {
    var diff := now - startTime;
    var minutes := diff / 60000;
    var hours := minutes / 60;
    if hours > 0 then IntToString(hours) + "h " + IntToString(minutes % 60) + "m ago"
    else IntToString(minutes) + "m ago"
  }

  /**
   * Once an hour has passed: at least one whole hour, then the minutes past
   * the hour, below 60. `NestedFloor` shows these are the whole hours of the
   * difference and the whole minutes of what is left.
   */
  lemma FormatTimeHours(startTime: int, now: int)
    requires now - startTime >= 3600000
    ensures var minutes := (now - startTime) / 60000;
      && minutes / 60 >= 1 && 0 <= minutes % 60 < 60
      && FormatTime(startTime, now) == Decimal(minutes / 60) + "h " + Decimal(minutes % 60) + "m ago"
  {
    var minutes := (now - startTime) / 60000;
    assert minutes >= 60;
    assert IntToString(minutes / 60) == Decimal(minutes / 60);
    assert IntToString(minutes % 60) == Decimal(minutes % 60);
  }

  /** Within the first hour, and for a start in the future: the whole minutes, possibly negative. */
  lemma FormatTimeMinutes(startTime: int, now: int)
    requires now - startTime < 3600000
    ensures FormatTime(startTime, now) == IntToString((now - startTime) / 60000) + "m ago"
  {
    assert (now - startTime) / 60000 < 60;
  }

  /** Whole minutes, then whole hours of those, is whole hours of the difference; the rest is the minutes past. */
  lemma NestedFloor(diff: int)
    ensures diff / 60000 / 60 == diff / 3600000
    ensures diff / 60000 % 60 == diff % 3600000 / 60000
  {
    var minutes := diff / 60000;
    var hours := minutes / 60;
    var r1 := diff % 60000;
    var r2 := minutes % 60;
    assert diff == minutes * 60000 + r1;
    assert minutes == hours * 60 + r2;
    assert diff == hours * 3600000 + (r2 * 60000 + r1);
    assert 0 <= r2 * 60000 + r1 < 3600000;
  }

  /** The action buttons of the full card. */
  datatype CardAction = ProvideInput | Retry

  function Actions(t: Task): seq<CardAction> {
    (if t.status == NeedsInput then [ProvideInput] else [])
    + (if t.status == Error then [Retry] else [])
  }

  /** What a button asks of `onStatusUpdate`: this task back to running. */
  function ActionRequest(t: Task, a: CardAction): (string, Status) {
    (t.id, Running)
  }

  /** "Provide Input" only for needs-input tasks, "Retry" only for failed ones, at most one button. */
  lemma ActionsOffered(t: Task)
    ensures ProvideInput in Actions(t) <==> t.status == NeedsInput
    ensures Retry in Actions(t) <==> t.status == Error
    ensures |Actions(t)| <= 1
    ensures forall a :: a in Actions(t) ==> ActionRequest(t, a) == (t.id, Running)
  {
  }

  /** The two renderings of a card. */
  datatype CardView = Chip | FullCard

  /** The compact chip exactly when the card is collapsible and not open. */
  function View(isCollapsed: bool, isOpen: bool): CardView {
    if isCollapsed && !isOpen then Chip else FullCard
  }
}
