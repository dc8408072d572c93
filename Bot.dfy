/**
 * The running bot: the mutable store of last auto-reply moments, the fixed
 * exemption list, and the message handler that updates the store in place.
 */
module Bot {
  import opened Wrappers
  import opened Clock
  import opened Store
  import opened Router

  class Bot {
    /** Sender ids that are never answered; fixed for the process lifetime. */
    const exempt: set<string>
    /** Sender id -> moment of the last auto-reply, in memory. */
    var sentNumbers: SentNumbers
    /** The contents of the data file as last written. */
    ghost var persisted: SentNumbers

    ghost function State(): BotState
      reads this
    {
      BotState(sentNumbers, persisted)
    }

    /**
     * Startup: the store is the parsed data file, or empty (and the file
     * rewritten as empty) when it cannot be read or parsed.
     */
    constructor (parsed: Option<SentNumbers>)
      ensures exempt == ExemptNumbers
      ensures State() == Startup(parsed)
      ensures parsed.None? ==> sentNumbers == map[] && persisted == map[]
    {
      exempt := ExemptNumbers;
      sentNumbers := Load(parsed);
      persisted := Load(parsed);
    }

    /**
     * Handles one message from `from` at `now`. `sendOk` tells whether the
     * reply is delivered, `saveOk` whether the data file is written. Only a
     * delivered reply changes the store, and only at the sender's own id.
     */
    method Handle(from: string, now: Timestamp, sendOk: bool, saveOk: bool) returns (outcome: Outcome)
      modifies this
      ensures Transition(outcome, State()) == Step(exempt, old(State()), Message(from, now, sendOk, saveOk))
      ensures outcome == Replied ==> sentNumbers == old(sentNumbers)[SenderId(from) := now]
      ensures outcome != Replied ==> sentNumbers == old(sentNumbers) && persisted == old(persisted)
      ensures saveOk && old(persisted) == old(sentNumbers) ==> persisted == sentNumbers
    {
      var id := SenderId(from);
      if id in exempt {
        return Exempt;
      }
      if IsGroupOrigin(from) {
        return Group;
      }
      if IsOutsideWorkingHours(now) && CanSendMessage(sentNumbers, id, now) {
        if !sendOk {
          return SendFailed;
        }
        sentNumbers := sentNumbers[id := now];
        if saveOk {
          persisted := sentNumbers;
        }
        return Replied;
      }
      return Declined;
    }
  }
}
