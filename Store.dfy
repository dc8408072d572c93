/**
 * The persisted record of auto-replies: sender id -> moment of the last
 * auto-reply, loaded once at startup, and the once-per-calendar-day gate
 * that reads it.
 */
module Store {
  import opened Wrappers
  import opened Clock

  type SentNumbers = map<string, Timestamp>

  /**
   * The store at startup: the parsed file contents when the file could be read
   * and parsed (`Some`), otherwise the empty store (the file is then rewritten
   * as an empty object).
   */
  function Load(parsed: Option<SentNumbers>): (store: SentNumbers)
    ensures parsed.None? ==> store == map[]
    ensures parsed.Some? ==> store == parsed.value
  {
    match parsed
    case None => map[]
    case Some(contents) => contents
  }

  /**
   * Whether `id` may receive an auto-reply at `now`: always when it has no
   * entry, otherwise only on a calendar date other than that of its entry.
   */
  function CanSendMessage(sentNumbers: SentNumbers, id: string, now: Timestamp): (ok: bool)
    ensures !ok <==> id in sentNumbers && SameDay(sentNumbers[id], now)
  {
    id !in sentNumbers || !SameDay(sentNumbers[id], now)
  }

  /** A sender without an entry may always be answered. */
  lemma UnknownSenderMaySend(sentNumbers: SentNumbers, id: string, now: Timestamp)
    requires id !in sentNumbers
    ensures CanSendMessage(sentNumbers, id, now)
  {
  }

  /**
   * Once `id` is recorded at `sent`, the gate refuses exactly the moments on
   * the same calendar date as `sent`, whatever their time of day.
   */
  lemma GateAfterRecord(sentNumbers: SentNumbers, id: string, sent: Timestamp, now: Timestamp)
    ensures !CanSendMessage(sentNumbers[id := sent], id, now) <==> SameDay(sent, now)
  {
  }

  /** 23:59 on one day and 00:01 on the next are different calendar dates. */
  lemma MidnightSeparatesDays(sentNumbers: SentNumbers, id: string, y: int, m: int, d: int)
    requires 1 <= m <= 12 && 1 <= d < 28
    ensures CanSendMessage(sentNumbers[id := Timestamp(y, m, d, 23, 59)], id, Timestamp(y, m, d + 1, 0, 1))
    ensures !CanSendMessage(sentNumbers[id := Timestamp(y, m, d, 0, 1)], id, Timestamp(y, m, d, 23, 59))
  {
  }

  /** Recording one sender does not change the gate for any other sender. */
  lemma GateOfOthersUnchanged(sentNumbers: SentNumbers, id: string, other: string, sent: Timestamp, now: Timestamp)
    requires other != id
    ensures CanSendMessage(sentNumbers[id := sent], other, now) == CanSendMessage(sentNumbers, other, now)
  {
  }
}
