/**
 * The AG-UI events the dashboard consumes (src/components/TaskDashboard.tsx,
 * the event interfaces and their union). `Other` stands for any decoded
 * object whose `type` tag is none of the five: the parser does not check
 * the tag, so such objects reach the reducer.
 */
module Events {
  import opened Wrappers

  datatype Event =
    | RunStarted(threadId: string, runId: string)
    | RunFinished(threadId: string, runId: string)
    | TextMessageStart(messageId: string, role: string)
    | TextMessageContent(messageId: string, delta: string)
    | TextMessageEnd(messageId: string)
    | Other(tag: string)

  /** `JSON.parse` followed by reading the result as an event; `None` where it throws. */
  type Decoder = string -> Option<Event>

  /** One of the five tags the reducer handles. */
  predicate Recognised(e: Event) {
    !e.Other?
  }
}
