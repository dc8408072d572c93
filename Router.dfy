/**
 * The handler of incoming messages: derive the sender id, classify the
 * message as exempt, group or direct, and for a direct message decide
 * whether to auto-reply and record the reply.
 */
module Router {
  import opened Wrappers
  import opened Clock
  import opened Store

  /** The sender ids that never receive an auto-reply. */
  const ExemptNumbers: set<string> :=
    {"6285697541380", "6281386234176", "62895326162732", "62895383486470"}

  /** The marker that identifies a group chat address. */
  const GroupMarker: string := "@g.us"

  /**
   * The sender id: the part of the origin address before its first '@'
   * (the whole address when it has none).
   */
  function SenderId(from: string): (id: string)
    ensures id <= from
    ensures '@' !in id
    ensures |id| < |from| ==> from[|id|] == '@'
  {
    if from == [] || from[0] == '@' then [] else [from[0]] + SenderId(from[1..])
  }

  /** `pat` occurs in `s` starting at position `i`. */
  predicate OccursAt(s: string, pat: string, i: nat) {
    i + |pat| <= |s| && s[i..i + |pat|] == pat
  }

  /** Substring search: whether `pat` occurs anywhere in `s`. */
  function Contains(s: string, pat: string): (found: bool)
    ensures found <==> exists i: nat :: OccursAt(s, pat, i)
  {
    if |s| < |pat| then
      false
    else if s[..|pat|] == pat then
      assert OccursAt(s, pat, 0);
      true
    else
      var found := Contains(s[1..], pat);
      assert found ==> exists i: nat :: OccursAt(s, pat, i) by {
        if found {
          var i: nat :| OccursAt(s[1..], pat, i);
          assert s[1..][i..i + |pat|] == s[i + 1..i + 1 + |pat|];
          assert OccursAt(s, pat, i + 1);
        }
      }
      assert (exists i: nat :: OccursAt(s, pat, i)) ==> found by {
        if exists i: nat :: OccursAt(s, pat, i) {
          var i: nat :| OccursAt(s, pat, i);
          assert i != 0;
          assert s[1..][i - 1..i - 1 + |pat|] == s[i..i + |pat|];
          assert OccursAt(s[1..], pat, i - 1);
        }
      }
      found
  }

  /** A message whose origin address names a group chat. */
  predicate IsGroupOrigin(from: string)
    ensures IsGroupOrigin(from) <==> exists i: nat :: OccursAt(from, GroupMarker, i)
  {
    Contains(from, GroupMarker)
  }

  /** The terminal state the handler reaches for one message. */
  datatype Outcome =
    | Exempt      // the sender id is on the exemption list: dropped
    | Group       // a group message: logged, never answered
    | Declined    // a direct message inside working hours or already answered today
    | Replied     // the auto-reply was sent and recorded
    | SendFailed  // sending the auto-reply failed: nothing recorded

  /**
   * The bot's state: the in-memory store and the durable image of it in the
   * data file.
   */
  datatype BotState = BotState(sentNumbers: SentNumbers, persisted: SentNumbers)

  /** The bot right after startup from the (possibly unreadable) data file. */
  function Startup(parsed: Option<SentNumbers>): (s: BotState)
    ensures s.sentNumbers == s.persisted == Load(parsed)
  {
    BotState(Load(parsed), Load(parsed))
  }

  /**
   * One incoming message: its origin address, the moment it is handled, and
   * whether sending the reply and writing the data file would succeed.
   */
  datatype Message = Message(from: string, now: Timestamp, sendOk: bool, saveOk: bool)

  datatype Transition = Transition(outcome: Outcome, next: BotState)

  /**
   * The handler's decision and the state it leaves behind, for one message.
   * A reply is attempted only for a non-exempt direct message outside working
   * hours that the gate allows, and only a delivered reply changes the state.
   */
  function Step(exempt: set<string>, s: BotState, m: Message): (t: Transition)
    ensures t.outcome in {Replied, SendFailed} ==>
      SenderId(m.from) !in exempt && !IsGroupOrigin(m.from) &&
      IsOutsideWorkingHours(m.now) && CanSendMessage(s.sentNumbers, SenderId(m.from), m.now)
    ensures t.outcome == Replied ==> m.sendOk && SenderId(m.from) in t.next.sentNumbers && t.next.sentNumbers[SenderId(m.from)] == m.now
    ensures t.outcome != Replied ==> t.next == s
  {
    var id := SenderId(m.from);
    if id in exempt then
      Transition(Exempt, s)
    else if IsGroupOrigin(m.from) then
      Transition(Group, s)
    else if IsOutsideWorkingHours(m.now) && CanSendMessage(s.sentNumbers, id, m.now) then
      if !m.sendOk then
        Transition(SendFailed, s)
      else
        var updated := s.sentNumbers[id := m.now];
        Transition(Replied, BotState(updated, if m.saveOk then updated else s.persisted))
    else
      Transition(Declined, s)
  }

  /**
   * The outcomes of handling `msgs` one at a time, in order. Its contract only
   * gives the length needed for indexing; what the stream guarantees is proved
   * in `Policy`.
   */
  function Outcomes(exempt: set<string>, s: BotState, msgs: seq<Message>): (os: seq<Outcome>)
    ensures |os| == |msgs|
    decreases |msgs|
  {
    if msgs == [] then [] else [Step(exempt, s, msgs[0]).outcome] + Outcomes(exempt, Step(exempt, s, msgs[0]).next, msgs[1..])
  }
}
