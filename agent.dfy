/**
 * The conversation state machine and the follow-up tick (agent/agent.py).
 * A `SalesAgent` drives a lead table and a session store: triggering a
 * lead creates both records, each response moves the conversation one step
 * (consent, then the catalog's questions, then completion), and the
 * follow-up tick nudges consented leads that went quiet.
 *
 * The pure functions `Triggered`, `Respond` and `FollowUpTargets` state
 * what each operation does to the two stores as values; the methods of
 * `SalesAgent` do it in place through the stores' own methods and are
 * proved to agree with them. What the operations printed is kept in the
 * ghost `outbox`.
 */
module Agent {

  import opened Wrappers
  import opened Text
  import opened Leads
  import opened Sessions

  /** Idle threshold of the follow-up tick, in hours. */
  const FollowUpHours: int := 24

  /** The responses that count as consent, after lower-casing. */
  const ConsentWords: set<string> := {"yes", "y", "sure", "ok", "okay"}

  const DeclineMessage: string := "Alright, " + "no problem" + ". Have a great day!"
  const CompletionMessage: string :=
    "Thank you for providing" + " all the information!" + " We'll be in touch soon."
  const FollowUpMessage: string :=
    "Just checking in to see if you're still interested. Let me know when you're ready to continue."

  /** The consent prompt sent to a newly triggered lead. */
  function Greeting(name: string): string
  {
    "Hey " + name + ", thank you for filling out the form. I'd like to gather some information from you. Is that okay?"
  }

  /** The line printed when a lead is triggered. */
  function GreetingLine(leadId: string, name: string): string
  {
    "Message sent to " + name + " (ID: " + leadId + "): " + Greeting(name)
  }

  /** The line printed when a trigger finds the lead already in the table. */
  function DuplicateLine(leadId: string): string
  {
    "Lead " + leadId + " already exists"
  }

  /** The line printed for a follow-up reminder. */
  function FollowUpLine(leadId: string, name: string): string
  {
    "Follow-up sent to " + name + " (ID: " + leadId + "): " + FollowUpMessage
  }

  predicate IsConsent(response: string)
  {
    Lower(response) in ConsentWords
  }

  /** Both stores, as values. */
  datatype Stores = Stores(leads: map<string, Lead>, sessions: map<string, Session>)

  /** The stores after a response, and the reply (`None` when there is nothing to say). */
  datatype Turn = Turn(stores: Stores, reply: Option<string>)

  /** `trigger_agent` succeeds: id and name are non-empty and the lead is new. */
  predicate Triggerable(st: Stores, leadId: string, name: string)
  {
    leadId != "" && name != "" && leadId !in st.leads
  }

  /**
   * The stores after `trigger_agent`: on success a pending lead and an
   * `initial` session whose only answer is the name; otherwise nothing
   * changes.
   */
  function Triggered(st: Stores, leadId: string, name: string, now: int): (after: Stores)
    ensures !Triggerable(st, leadId, name) ==> after == st
    ensures Triggerable(st, leadId, name) ==>
              after.leads == AfterAdd(st.leads, leadId, name, now)
              && after.sessions == AfterCreate(st.sessions, leadId, map["name" := name], now)
  {
    if leadId == "" || name == "" then st
    else if leadId in st.leads then st
    else Stores(AfterAdd(st.leads, leadId, name, now), AfterCreate(st.sessions, leadId, map["name" := name], now))
  }

  /** What `trigger_agent` prints. */
  function TriggerLog(st: Stores, leadId: string, name: string): seq<string>
  {
    if leadId == "" || name == "" then []
    else if leadId in st.leads then [DuplicateLine(leadId)]
    else [GreetingLine(leadId, name)]
  }

  /** `_handle_initial_response`: consent starts the questions, anything else ends the conversation. */
  function RespondInitial(st: Stores, leadId: string, response: string, now: int): Turn
  {
    if IsConsent(response) then
      var sessions := AfterUpdateSession(st.sessions, leadId, SetState(Questioning), now);
      var leads := AfterUpdate(st.leads, leadId, map["status" := InProgress], now);
      var asked := NextQuestion(sessions, leadId);
      Turn(Stores(leads, asked.0), if asked.1.Some? then Some(asked.1.value.text) else None)
    else
      var leads := AfterUpdate(st.leads, leadId, map["status" := NoResponse], now);
      Turn(Stores(leads, AfterEnd(st.sessions, leadId)), Some(DeclineMessage))
  }

  /** The lead-table update for an answer to question `key`. */
  function AnswerUpdates(key: string, response: string): map<string, string>
  {
    if key == InterestKey then map[key := response]["status" := Secured] else map[key := response]
  }

  /**
   * `_handle_question_response`: the answer goes to the outstanding question
   * `session.currentQuestion`, in the session and in the lead; then the next
   * question is asked or, when none is left, the conversation ends.
   */
  function RespondToQuestion(st: Stores, leadId: string, session: Session, response: string, now: int): Turn
  {
    var current := session.currentQuestion;
    if current.None? || current.value == "" then Turn(st, None)
    else
      var key := current.value;
      var sessions := AfterRecordAnswer(st.sessions, leadId, key, response, now);
      var leads := AfterUpdate(st.leads, leadId, AnswerUpdates(key, response), now);
      var asked := NextQuestion(sessions, leadId);
      if asked.1.Some? then Turn(Stores(leads, asked.0), Some(asked.1.value.text))
      else Turn(Stores(leads, AfterEnd(asked.0, leadId)), Some(CompletionMessage))
  }

  /** `handle_response`: checks its inputs and both stores, then dispatches on the session's state. */
  function Respond(st: Stores, leadId: string, response: string, now: int): Turn
  {
    if leadId == "" || response == "" then Turn(st, None)
    else if Lookup(st.leads, leadId).None? then Turn(st, None)
    else if !Present(st.sessions, leadId) then Turn(st, None)
    else
      var session := st.sessions[leadId];
      if session.state == Initial then RespondInitial(st, leadId, response, now)
      else if session.state == Questioning then RespondToQuestion(st, leadId, session, response, now)
      else Turn(st, None)
  }

  /** The lead a follow-up goes to: idle by the scan, and its lead in progress. */
  predicate FollowUpDue(st: Stores, idle: map<string, Session>, leadId: string)
  {
    leadId in idle && Lookup(st.leads, leadId).Some? && Lookup(st.leads, leadId).value.status == InProgress
  }

  /** The leads `check_for_follow_ups` reminds at time `now`. */
  function FollowUpTargets(st: Stores, now: int): (targets: set<string>)
    ensures forall id :: id in targets <==> FollowUpDue(st, Inactive(st.sessions, FollowUpHours, now), id)
  {
    var idle := Inactive(st.sessions, FollowUpHours, now);
    set id | id in idle.Keys && FollowUpDue(st, idle, id)
  }

  /** The sessions after the tick touched `targets` at time `now`. */
  function Touched(sessions: map<string, Session>, targets: set<string>, now: int): (after: map<string, Session>)
  {
    map id | id in sessions :: if id in targets then Merge(sessions[id], Touch, now) else sessions[id]
  }

  /** Every line of `lines` is the reminder to one of `targets`. */
  ghost predicate RemindersTo(lines: seq<string>, targets: set<string>, leads: map<string, Lead>)
  {
    forall i :: 0 <= i < |lines| ==>
      exists id :: id in targets && id in leads && lines[i] == FollowUpLine(id, leads[id].name)
  }

  /** Each of `targets` has its reminder among `lines`. */
  ghost predicate EachReminded(lines: seq<string>, targets: set<string>, leads: map<string, Lead>)
  {
    forall id :: id in targets ==> id in leads && FollowUpLine(id, leads[id].name) in lines
  }

  /** `order` lists each of `ids` exactly once. */
  ghost predicate ListedOnce(order: seq<string>, ids: set<string>)
  {
    && (forall i, j :: 0 <= i < j < |order| ==> order[i] != order[j])
    && (forall id :: id in order <==> id in ids)
  }

  /** `lines` are the reminders to the leads of `order`, one each, in that order. */
  ghost predicate LinesOf(lines: seq<string>, order: seq<string>, leads: map<string, Lead>)
  {
    && |lines| == |order|
    && forall i :: 0 <= i < |order| ==> order[i] in leads && lines[i] == FollowUpLine(order[i], leads[order[i]].name)
  }

  /** Reminding one more lead, not reminded yet, lists it once more and adds its line. */
  lemma OrderGrows(order: seq<string>, reminded: set<string>, lines: seq<string>, leads: map<string, Lead>, leadId: string)
    requires ListedOnce(order, reminded) && LinesOf(lines, order, leads)
    requires leadId !in reminded && leadId in leads
    ensures ListedOnce(order + [leadId], reminded + {leadId})
    ensures LinesOf(lines + [FollowUpLine(leadId, leads[leadId].name)], order + [leadId], leads)
  {
  }

  /** A listing of `ids` with each id once is as long as `ids` is large. */
  lemma {:induction false} ListedCount(order: seq<string>, ids: set<string>)
    requires ListedOnce(order, ids)
    ensures |order| == |ids|
  {
    if order != [] {
      var last := order[|order| - 1];
      var front := order[..|order| - 1];
      forall id
        ensures id in front <==> id in ids - {last}
      {
        if id in front {
          var i :| 0 <= i < |front| && front[i] == id;
          assert order[i] == id && order[|order| - 1] == last;
        }
        if id in ids - {last} {
          var i :| 0 <= i < |order| && order[i] == id;
          assert i < |order| - 1 && front[i] == id;
        }
      }
      ListedCount(front, ids - {last});
      assert ids == (ids - {last}) + {last};
    } else {
      assert forall id :: id !in ids;
      assert ids == {};
    }
  }

  /** The lines of a listing of `ids`: one per id, each the reminder to one of them, and every one of them reminded. */
  lemma ListedLines(order: seq<string>, ids: set<string>, lines: seq<string>, leads: map<string, Lead>)
    requires ListedOnce(order, ids) && LinesOf(lines, order, leads)
    ensures |lines| == |ids| && RemindersTo(lines, ids, leads) && EachReminded(lines, ids, leads)
  {
    ListedCount(order, ids);
    forall i | 0 <= i < |lines|
      ensures exists id :: id in ids && id in leads && lines[i] == FollowUpLine(id, leads[id].name)
    {
      assert order[i] in ids;
    }
    forall id | id in ids
      ensures id in leads && FollowUpLine(id, leads[id].name) in lines
    {
      var i :| 0 <= i < |order| && order[i] == id;
      assert lines[i] == FollowUpLine(id, leads[id].name);
    }
  }

  lemma Appended<T>(prefix: seq<T>, sent: seq<T>, x: T)
    ensures (prefix + sent) + [x] == prefix + (sent + [x])
  {
  }

  /** Touching one more session is one more `update_session(lead_id, {})`. */
  lemma TouchedStep(sessions: map<string, Session>, targets: set<string>, leadId: string, now: int)
    requires Present(sessions, leadId)
    ensures Touched(sessions, targets + {leadId}, now) == AfterUpdateSession(Touched(sessions, targets, now), leadId, Touch, now)
  {
  }

  /**
   * The follow-up tick part way through: the ids of the idle scan not in
   * `pending` have been examined, `reminded` are the targets among them,
   * `order` lists them once each in the order they were reminded, `lines`
   * holds their reminders in that order, and exactly they have been touched.
   */
  ghost predicate TickSoFar(start: Stores, idle: map<string, Session>, targets: set<string>, pending: set<string>,
                            reminded: set<string>, sessions: map<string, Session>, lines: seq<string>,
                            order: seq<string>, now: int)
  {
    && pending <= idle.Keys
    && reminded == targets - pending
    && sessions == Touched(start.sessions, reminded, now)
    && ListedOnce(order, reminded)
    && LinesOf(lines, order, start.leads)
  }

  /** Before the scan nothing has been examined. */
  lemma TickStart(start: Stores, idle: map<string, Session>, now: int)
    requires idle == Inactive(start.sessions, FollowUpHours, now)
    ensures TickSoFar(start, idle, FollowUpTargets(start, now), idle.Keys, {}, start.sessions, [], [], now)
  {
    assert FollowUpTargets(start, now) - idle.Keys == {};
    assert Touched(start.sessions, {}, now) == start.sessions;
  }

  /** After the scan the reminded ids are all the targets. */
  lemma TickDone(start: Stores, idle: map<string, Session>, targets: set<string>, reminded: set<string>,
                 sessions: map<string, Session>, lines: seq<string>, order: seq<string>, now: int)
    requires TickSoFar(start, idle, targets, {}, reminded, sessions, lines, order, now)
    ensures reminded == targets
    ensures |lines| == |targets| && RemindersTo(lines, targets, start.leads) && EachReminded(lines, targets, start.leads)
  {
    assert targets - {} == targets;
    ListedLines(order, targets, lines, start.leads);
  }

  /** Examining one more id keeps `TickSoFar`: it is reminded exactly when it is due. */
  lemma TickStep(start: Stores, idle: map<string, Session>, targets: set<string>, pending: set<string>, reminded: set<string>,
                 sessions: map<string, Session>, lines: seq<string>, order: seq<string>, now: int, leadId: string)
    requires idle == Inactive(start.sessions, FollowUpHours, now) && targets == FollowUpTargets(start, now)
    requires TickSoFar(start, idle, targets, pending, reminded, sessions, lines, order, now)
    requires leadId in pending
    ensures FollowUpDue(start, idle, leadId) ==>
              TickSoFar(start, idle, targets, pending - {leadId}, reminded + {leadId},
                        AfterUpdateSession(sessions, leadId, Touch, now),
                        lines + [FollowUpLine(leadId, start.leads[leadId].name)], order + [leadId], now)
    ensures !FollowUpDue(start, idle, leadId) ==>
              TickSoFar(start, idle, targets, pending - {leadId}, reminded, sessions, lines, order, now)
  {
    if FollowUpDue(start, idle, leadId) {
      assert leadId in targets && leadId !in reminded;
      assert reminded + {leadId} == targets - (pending - {leadId});
      OrderGrows(order, reminded, lines, start.leads, leadId);
      TouchedStep(start.sessions, reminded, leadId, now);
    } else {
      assert leadId !in targets;
      assert reminded == targets - (pending - {leadId});
    }
  }

  /** `SalesAgent`: the two stores and the log of what it printed. */
  class SalesAgent {

    const dataHandler: DataHandler
    const sessionManager: SessionManager
    ghost var outbox: seq<string>

    /** Both stores, as values. */
    ghost function State(): Stores
      reads dataHandler, sessionManager
    {
      Stores(dataHandler.leads, sessionManager.sessions)
    }

    constructor ()
      ensures fresh(dataHandler) && fresh(sessionManager)
      ensures State() == Stores(map[], map[])
      ensures outbox == []
    {
      dataHandler := new DataHandler();
      sessionManager := new SessionManager();
      outbox := [];
    }

    /** `trigger_agent` */
    method TriggerAgent(leadId: string, name: string, now: int) returns (triggered: bool)
      modifies this, dataHandler, sessionManager
      ensures triggered == Triggerable(old(State()), leadId, name)
      ensures State() == Triggered(old(State()), leadId, name, now)
      ensures outbox == old(outbox) + TriggerLog(old(State()), leadId, name)
    {
      if leadId == "" || name == "" {
        return false;
      }
      var added := dataHandler.AddLead(leadId, name, now);
      if !added {
        outbox := outbox + [DuplicateLine(leadId)];
        return false;
      }
      var _ := sessionManager.CreateSession(leadId, map["name" := name], now);
      outbox := outbox + [GreetingLine(leadId, name)];
      triggered := true;
    }

    /** `handle_response` */
    method HandleResponse(leadId: string, response: string, now: int) returns (reply: Option<string>)
      modifies dataHandler, sessionManager
      ensures Turn(State(), reply) == Respond(old(State()), leadId, response, now)
    {
      if leadId == "" || response == "" {
        return None;
      }
      var lead := dataHandler.GetLead(leadId);
      if lead.None? {
        return None;
      }
      var session := sessionManager.GetSession(leadId);
      if session.None? {
        return None;
      }
      if session.value.state == Initial {
        reply := HandleInitialResponse(leadId, response, now);
      } else if session.value.state == Questioning {
        reply := HandleQuestionResponse(leadId, session.value, response, now);
      } else {
        reply := None;
      }
    }

    /** `_handle_initial_response` */
    method HandleInitialResponse(leadId: string, response: string, now: int) returns (reply: Option<string>)
      modifies dataHandler, sessionManager
      ensures Turn(State(), reply) == RespondInitial(old(State()), leadId, response, now)
    {
      if Lower(response) in ConsentWords {
        var _ := sessionManager.UpdateSession(leadId, SetState(Questioning), now);
        var _ := dataHandler.UpdateLead(leadId, map["status" := InProgress], now);
        var next := sessionManager.GetNextQuestion(leadId);
        if next.Some? {
          return Some(next.value.text);
        }
      } else {
        var _ := dataHandler.UpdateLead(leadId, map["status" := NoResponse], now);
        var _ := sessionManager.EndSession(leadId);
        return Some(DeclineMessage);
      }
      return None;
    }

    /** `_handle_question_response`; `session` is the copy `handle_response` read. */
    method HandleQuestionResponse(leadId: string, session: Session, response: string, now: int) returns (reply: Option<string>)
      modifies dataHandler, sessionManager
      ensures Turn(State(), reply) == RespondToQuestion(old(State()), leadId, session, response, now)
    {
      var current := session.currentQuestion;
      if current.None? || current.value == "" {
        return None;
      }
      var _ := sessionManager.RecordAnswer(leadId, current.value, response, now);
      var updates := map[current.value := response];
      if current.value == InterestKey {
        updates := updates["status" := Secured];
      }
      var _ := dataHandler.UpdateLead(leadId, updates, now);
      var next := sessionManager.GetNextQuestion(leadId);
      if next.Some? {
        return Some(next.value.text);
      } else {
        var _ := sessionManager.EndSession(leadId);
        return Some(CompletionMessage);
      }
    }

    /**
     * `check_for_follow_ups`: every idle session whose lead is in progress
     * gets one reminder and is touched; the lead table does not change.
     * The reminders are printed in the order the scan yields the ids.
     */
    method CheckForFollowUps(now: int) returns (ghost order: seq<string>)
      modifies this, sessionManager
      ensures dataHandler.leads == old(dataHandler.leads)
      ensures sessionManager.sessions == Touched(old(sessionManager.sessions), FollowUpTargets(old(State()), now), now)
      ensures |outbox| == |old(outbox)| + |FollowUpTargets(old(State()), now)|
      ensures RemindersTo(outbox[|old(outbox)|..], FollowUpTargets(old(State()), now), old(dataHandler.leads))
      ensures forall id :: id in FollowUpTargets(old(State()), now) ==>
                id in old(dataHandler.leads) && FollowUpLine(id, old(dataHandler.leads)[id].name) in outbox[|old(outbox)|..]
      ensures ListedOnce(order, FollowUpTargets(old(State()), now))
      ensures LinesOf(outbox[|old(outbox)|..], order, old(dataHandler.leads))
    {
      ghost var start := State();
      var idle := sessionManager.CheckInactiveSessions(FollowUpHours, now);
      ghost var targets := FollowUpTargets(start, now);
      var pending := idle.Keys;
      ghost var reminded: set<string> := {};
      ghost var sent: seq<string> := [];
      order := [];
      TickStart(start, idle, now);
      while pending != {}
        invariant dataHandler.leads == start.leads
        invariant outbox == old(outbox) + sent
        invariant TickSoFar(start, idle, targets, pending, reminded, sessionManager.sessions, sent, order, now)
        decreases pending
      {
        var leadId :| leadId in pending;
        var due := RemindIfDue(start, idle, targets, pending, reminded, sent, order, leadId, now);
        if due {
          ghost var line := FollowUpLine(leadId, start.leads[leadId].name);
          Appended(old(outbox), sent, line);
          sent := sent + [line];
          order := order + [leadId];
          reminded := reminded + {leadId};
        }
        pending := pending - {leadId};
      }
      TickDone(start, idle, targets, reminded, sessionManager.sessions, sent, order, now);
      assert outbox[|old(outbox)|..] == sent;
    }

    /**
     * One id of the follow-up scan: a lead in progress gets a reminder line
     * and its session is touched. The ghost parameters are the scan so far,
     * which this keeps.
     */
    method RemindIfDue(ghost start: Stores, ghost idle: map<string, Session>, ghost targets: set<string>,
                       ghost pending: set<string>, ghost reminded: set<string>, ghost sent: seq<string>,
                       ghost order: seq<string>, leadId: string, now: int) returns (due: bool)
      requires idle == Inactive(start.sessions, FollowUpHours, now) && targets == FollowUpTargets(start, now)
      requires dataHandler.leads == start.leads
      requires TickSoFar(start, idle, targets, pending, reminded, sessionManager.sessions, sent, order, now)
      requires leadId in pending
      modifies this, sessionManager
      ensures due == FollowUpDue(start, idle, leadId)
      ensures due ==>
                && outbox == old(outbox) + [FollowUpLine(leadId, start.leads[leadId].name)]
                && TickSoFar(start, idle, targets, pending - {leadId}, reminded + {leadId}, sessionManager.sessions,
                             sent + [FollowUpLine(leadId, start.leads[leadId].name)], order + [leadId], now)
      ensures !due ==>
                && outbox == old(outbox)
                && TickSoFar(start, idle, targets, pending - {leadId}, reminded, sessionManager.sessions, sent, order, now)
    {
      ghost var before := sessionManager.sessions;
      TickStep(start, idle, targets, pending, reminded, before, sent, order, now, leadId);
      var lead := dataHandler.GetLead(leadId);
      due := lead.Some? && lead.value.status == InProgress;
      if due {
        Remind(leadId, lead.value.name, now);
      }
    }

    /** The reminder itself: one line printed and the session touched. */
    method Remind(leadId: string, name: string, now: int)
      modifies this, sessionManager
      ensures outbox == old(outbox) + [FollowUpLine(leadId, name)]
      ensures sessionManager.sessions == AfterUpdateSession(old(sessionManager.sessions), leadId, Touch, now)
    {
      outbox := outbox + [FollowUpLine(leadId, name)];
      var _ := sessionManager.UpdateSession(leadId, Touch, now);
    }
  }
}
