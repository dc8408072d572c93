/**
 * What the handler promises: which messages are answered, what a reply
 * records, and that a sender is answered at most once per calendar day,
 * also across a restart when the data file was written.
 */
module Policy {
  import opened Wrappers
  import opened Clock
  import opened Store
  import opened Router

  /** The sender id of an address "<id>@<domain>" is `id`, when `id` has no '@'. */
  lemma {:induction false} SenderIdOfAddress(id: string, domain: string)
    requires '@' !in id
    ensures SenderId(id + "@" + domain) == id
  {
    if id != [] {
      assert (id + "@" + domain)[1..] == id[1..] + "@" + domain;
      SenderIdOfAddress(id[1..], domain);
    }
  }

  /** A direct chat address "<id>@c.us" is not a group origin; "<id>@g.us" is. */
  lemma DirectAndGroupAddresses(id: string)
    requires '@' !in id
    ensures !IsGroupOrigin(id + "@c.us")
    ensures IsGroupOrigin(id + "@g.us")
  {
    var direct := id + "@c.us";
    forall i: nat | i + |GroupMarker| <= |direct|
      ensures !OccursAt(direct, GroupMarker, i)
    {
      if i < |id| {
        assert direct[i] == id[i] != GroupMarker[0];
      } else {
        assert direct[|id| + 1] != GroupMarker[1];
      }
    }
    assert OccursAt(id + "@g.us", GroupMarker, |id|);
  }

  /** An exempt sender is dropped: no reply, no change to the store. */
  lemma ExemptNeverReplies(exempt: set<string>, s: BotState, m: Message)
    requires SenderId(m.from) in exempt
    ensures Step(exempt, s, m) == Transition(Exempt, s)
  {
  }

  /**
   * A group message is never answered and leaves the store unchanged, whatever
   * the time, the history or the outcome of fetching its metadata.
   */
  lemma GroupNeverReplies(exempt: set<string>, s: BotState, m: Message)
    requires IsGroupOrigin(m.from)
    ensures Step(exempt, s, m).outcome in {Exempt, Group}
    ensures Step(exempt, s, m).next == s
    ensures SenderId(m.from) !in exempt ==> Step(exempt, s, m).outcome == Group
  {
  }

  /**
   * A direct message from a non-exempt sender is answered exactly when it
   * arrives outside working hours and the sender was not answered on that
   * calendar date (and the reply is attempted under the same condition).
   */
  lemma DirectReplyIff(exempt: set<string>, s: BotState, m: Message)
    requires SenderId(m.from) !in exempt && !IsGroupOrigin(m.from)
    ensures var o := Step(exempt, s, m).outcome;
      (o == Replied || o == SendFailed) <==> IsOutsideWorkingHours(m.now) && CanSendMessage(s.sentNumbers, SenderId(m.from), m.now)
    ensures Step(exempt, s, m).outcome == Replied <==>
      IsOutsideWorkingHours(m.now) && CanSendMessage(s.sentNumbers, SenderId(m.from), m.now) && m.sendOk
    ensures Step(exempt, s, m).outcome in {Declined, Replied, SendFailed}
  {
  }

  /**
   * A delivered reply records `now` for the sender and changes no other entry;
   * every other outcome, a failed send included, records nothing.
   */
  lemma ReplyRecordsOnlySender(exempt: set<string>, s: BotState, m: Message)
    ensures var t := Step(exempt, s, m);
      t.outcome == Replied ==>
        SenderId(m.from) in t.next.sentNumbers && t.next.sentNumbers[SenderId(m.from)] == m.now &&
        t.next.sentNumbers.Keys == s.sentNumbers.Keys + {SenderId(m.from)} &&
        forall k :: k in s.sentNumbers && k != SenderId(m.from) ==> t.next.sentNumbers[k] == s.sentNumbers[k]
    ensures Step(exempt, s, m).outcome != Replied ==> Step(exempt, s, m).next == s
  {
  }

  /**
   * After a reply, a second direct message from the same sender on the same
   * calendar date is declined.
   */
  lemma SameDayRepeatDeclined(exempt: set<string>, s: BotState, m1: Message, m2: Message)
    requires Step(exempt, s, m1).outcome == Replied
    requires SenderId(m2.from) == SenderId(m1.from) && !IsGroupOrigin(m2.from)
    requires SameDay(m1.now, m2.now)
    ensures Step(exempt, Step(exempt, s, m1).next, m2) == Transition(Declined, Step(exempt, s, m1).next)
  {
  }

  /**
   * After a reply, a direct message from the same sender on another calendar
   * date, outside working hours, is answered again.
   */
  lemma OtherDayRepliesAgain(exempt: set<string>, s: BotState, m1: Message, m2: Message)
    requires Step(exempt, s, m1).outcome == Replied
    requires SenderId(m2.from) == SenderId(m1.from) && !IsGroupOrigin(m2.from)
    requires !SameDay(m1.now, m2.now) && IsOutsideWorkingHours(m2.now) && m2.sendOk
    ensures Step(exempt, Step(exempt, s, m1).next, m2).outcome == Replied
  {
  }

  /** While every write succeeds, the data file mirrors the in-memory store. */
  lemma SavedStoreStaysPersisted(exempt: set<string>, s: BotState, m: Message)
    requires s.persisted == s.sentNumbers && m.saveOk
    ensures Step(exempt, s, m).next.persisted == Step(exempt, s, m).next.sentNumbers
  {
  }

  /**
   * A reply whose record reached the data file survives a restart: the same
   * sender writing again that calendar date is still declined.
   */
  lemma RestartAfterSaveStillDeclines(exempt: set<string>, s: BotState, m1: Message, m2: Message)
    requires Step(exempt, s, m1).outcome == Replied && m1.saveOk
    requires SenderId(m2.from) == SenderId(m1.from) && !IsGroupOrigin(m2.from)
    requires SameDay(m1.now, m2.now)
    ensures var restarted := Startup(Some(Step(exempt, s, m1).next.persisted));
      Step(exempt, restarted, m2).outcome == Declined
  {
  }

  /**
   * When the data file could not be written, a restart forgets the reply: a
   * sender answered for the first time is answered again the same day.
   */
  lemma RestartAfterFailedSaveRepeats(exempt: set<string>, s: BotState, m1: Message, m2: Message)
    requires SenderId(m1.from) !in s.persisted
    requires Step(exempt, s, m1).outcome == Replied && !m1.saveOk
    requires m2 == m1.(saveOk := true)
    ensures var restarted := Startup(Some(Step(exempt, s, m1).next.persisted));
      Step(exempt, restarted, m2).outcome == Replied
  {
  }

  /**
   * Starting from a store where `id` was answered on `day`, no message of
   * that day from `id` is answered again.
   */
  lemma {:induction false} RecordedSenderNotRepliedAgain(exempt: set<string>, s: BotState, msgs: seq<Message>, day: Timestamp, id: string)
    requires forall k :: 0 <= k < |msgs| ==> SameDay(msgs[k].now, day)
    requires id in s.sentNumbers && SameDay(s.sentNumbers[id], day)
    ensures forall k :: 0 <= k < |msgs| && SenderId(msgs[k].from) == id ==> Outcomes(exempt, s, msgs)[k] != Replied
    decreases |msgs|
  {
    if msgs != [] {
      var t := Step(exempt, s, msgs[0]);
      assert id in t.next.sentNumbers && SameDay(t.next.sentNumbers[id], day);
      RecordedSenderNotRepliedAgain(exempt, t.next, msgs[1..], day, id);
      forall k | 0 <= k < |msgs| && SenderId(msgs[k].from) == id
        ensures Outcomes(exempt, s, msgs)[k] != Replied
      {
        if k > 0 {
          assert msgs[1..][k - 1] == msgs[k];
        }
      }
    }
  }

  /**
   * Messages handled one at a time on a single calendar day: no sender is
   * answered twice.
   */
  lemma {:induction false} OneReplyPerSenderPerDay(exempt: set<string>, s: BotState, msgs: seq<Message>, day: Timestamp, i: nat, j: nat)
    requires forall k :: 0 <= k < |msgs| ==> SameDay(msgs[k].now, day)
    requires i < j < |msgs| && SenderId(msgs[i].from) == SenderId(msgs[j].from)
    ensures !(Outcomes(exempt, s, msgs)[i] == Replied && Outcomes(exempt, s, msgs)[j] == Replied)
    decreases i
  {
    var t := Step(exempt, s, msgs[0]);
    assert msgs[1..][j - 1] == msgs[j];
    if i == 0 {
      if t.outcome == Replied {
        RecordedSenderNotRepliedAgain(exempt, t.next, msgs[1..], day, SenderId(msgs[0].from));
      }
    } else {
      assert msgs[1..][i - 1] == msgs[i];
      OneReplyPerSenderPerDay(exempt, t.next, msgs[1..], day, i - 1, j - 1);
    }
  }

  /**
   * A direct chat "<id>@c.us" of a non-exempt sender: a first message at
   * 20:00 on day D is answered, a second at 20:30 the same day is declined,
   * and one at 08:00 the next day is answered again.
   */
  lemma ThreeMessageScenario(id: string, y: int, m: int, d: int)
    requires '@' !in id && id !in ExemptNumbers
    requires 1 <= m <= 12 && 1 <= d < 28
    ensures var from := id + "@c.us";
      var m1 := Message(from, Timestamp(y, m, d, 20, 0), true, true);
      var m2 := Message(from, Timestamp(y, m, d, 20, 30), true, true);
      var m3 := Message(from, Timestamp(y, m, d + 1, 8, 0), true, true);
      Outcomes(ExemptNumbers, Startup(None), [m1, m2, m3]) == [Replied, Declined, Replied]
  {
    var from := id + "@c.us";
    assert from == id + "@" + "c.us";
    SenderIdOfAddress(id, "c.us");
    DirectAndGroupAddresses(id);
    var m1 := Message(from, Timestamp(y, m, d, 20, 0), true, true);
    var m2 := Message(from, Timestamp(y, m, d, 20, 30), true, true);
    var m3 := Message(from, Timestamp(y, m, d + 1, 8, 0), true, true);
    var s0 := Startup(None);
    DirectReplyIff(ExemptNumbers, s0, m1);
    assert IsOutsideWorkingHours(m1.now) && CanSendMessage(s0.sentNumbers, id, m1.now);
    var t1 := Step(ExemptNumbers, s0, m1);
    assert t1.outcome == Replied;
    SameDayRepeatDeclined(ExemptNumbers, s0, m1, m2);
    var t2 := Step(ExemptNumbers, t1.next, m2);
    assert t2 == Transition(Declined, t1.next);
    OtherDayRepliesAgain(ExemptNumbers, s0, m1, m3);
    var t3 := Step(ExemptNumbers, t2.next, m3);
    assert t3.outcome == Replied;
    var msgs := [m1, m2, m3];
    assert msgs[1..] == [m2, m3];
    assert msgs[1..][1..] == [m3];
    assert Outcomes(ExemptNumbers, t2.next, [m3]) == [Replied];
    assert Outcomes(ExemptNumbers, t1.next, [m2, m3]) == [Declined, Replied];
  }
}
