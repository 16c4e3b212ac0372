/**
 * The in-memory session store (agent/session_manager.py): one session per
 * lead id, holding the answers so far, the conversation state, the
 * outstanding question, the completion flag, the time of the last activity
 * and the session's own copy of the question catalog. The lock of the
 * source is not modelled: every operation is one atomic step.
 */
module Sessions {

  import opened Wrappers
  import TimeUtils

  /** An entry of the question catalog. */
  datatype Question = Question(key: string, text: string)

  const AgeKey: string := "age"
  const CountryKey: string := "country"
  const InterestKey: string := "interest"

  const AgeText: string := "What is your age?"
  const CountryText: string := "Which country " + "are you from?"
  const InterestText: string := "What product or service " + "are you interested in?"

  /** The catalog, in the order the questions are asked. */
  const Catalog: seq<Question> := [
    Question(AgeKey, AgeText),
    Question(CountryKey, CountryText),
    Question(InterestKey, InterestText)
  ]

  const Initial: string := "initial"
  const Questioning: string := "questioning"

  datatype Session = Session(
    data: map<string, string>,
    state: string,
    lastActivity: int,
    currentQuestion: Option<string>,
    questions: seq<Question>,
    completed: bool)

  /**
   * The argument of `update_session`: the fields it sets (`Some`) and the
   * fields it leaves alone (`None`). `last_activity` is not among them
   * because `update_session` overwrites it anyway.
   */
  datatype SessionUpdate = SessionUpdate(
    data: Option<map<string, string>>,
    state: Option<string>,
    currentQuestion: Option<Option<string>>,
    questions: Option<seq<Question>>,
    completed: Option<bool>)

  /** The empty update `{}`: it only refreshes the activity time. */
  const Touch: SessionUpdate := SessionUpdate(None, None, None, None, None)

  /** The update `{'state': state}`. */
  function SetState(state: string): SessionUpdate
  {
    SessionUpdate(None, Some(state), None, None, None)
  }

  /** The session `create_session` stores. */
  function NewSession(initialData: map<string, string>, now: int): Session
  {
    Session(initialData, Initial, now, None, Catalog, false)
  }

  /** `session.update(updates)` followed by `session['last_activity'] = now`. */
  function Merge(session: Session, update: SessionUpdate, now: int): Session
  {
    Session(
      if update.data.Some? then update.data.value else session.data,
      if update.state.Some? then update.state.value else session.state,
      now,
      if update.currentQuestion.Some? then update.currentQuestion.value else session.currentQuestion,
      if update.questions.Some? then update.questions.value else session.questions,
      if update.completed.Some? then update.completed.value else session.completed)
  }

  /**
   * The position of the first question whose key is not answered in
   * `data`; `None` when every question is answered.
   */
  function FirstUnanswered(questions: seq<Question>, data: map<string, string>): (next: Option<nat>)
    ensures next.Some? ==>
              next.value < |questions|
              && questions[next.value].key !in data
              && forall j :: 0 <= j < next.value ==> questions[j].key in data
    ensures next.None? ==> forall j :: 0 <= j < |questions| ==> questions[j].key in data
  {
    if questions == [] then None
    else if questions[0].key !in data then Some(0)
    else match FirstUnanswered(questions[1..], data)
      case Some(j) => Some(j + 1)
      case None => None
  }

  /** `create_session` succeeds: the id is non-empty and has no session yet. */
  predicate Creatable(sessions: map<string, Session>, leadId: string)
  {
    leadId != "" && leadId !in sessions
  }

  /**
   * The store after `create_session`. A new session starts in state
   * `initial` with the given answers, no outstanding question, not
   * completed, active now, and with its own copy of the catalog. A failed
   * create changes nothing.
   */
  function AfterCreate(sessions: map<string, Session>, leadId: string, initialData: map<string, string>, now: int): (after: map<string, Session>)
    ensures !Creatable(sessions, leadId) ==> after == sessions
    ensures Creatable(sessions, leadId) ==>
              after.Keys == sessions.Keys + {leadId}
              && after[leadId].state == Initial
              && after[leadId].currentQuestion.None?
              && !after[leadId].completed
              && after[leadId].data == initialData
              && after[leadId].questions == Catalog
              && after[leadId].lastActivity == now
    ensures forall id :: id in sessions ==> id in after && after[id] == sessions[id]
  {
    if Creatable(sessions, leadId) then sessions[leadId := NewSession(initialData, now)] else sessions
  }

  /** The store has a session for this non-empty id. */
  predicate Present(sessions: map<string, Session>, leadId: string)
  {
    leadId != "" && leadId in sessions
  }

  /**
   * The store after `update_session`. On a known id the fields named by
   * the update are replaced, the others kept, and the activity time is
   * `now` in every case; other sessions are untouched. An unknown id
   * changes nothing.
   */
  function AfterUpdateSession(sessions: map<string, Session>, leadId: string, update: SessionUpdate, now: int): (after: map<string, Session>)
    ensures after.Keys == sessions.Keys
    ensures !Present(sessions, leadId) ==> after == sessions
    ensures forall id :: id in sessions && id != leadId ==> after[id] == sessions[id]
    ensures Present(sessions, leadId) ==>
              after[leadId].lastActivity == now
              && (update.state.Some? ==> after[leadId].state == update.state.value)
              && (update.state.None? ==> after[leadId].state == sessions[leadId].state)
              && (update.data.Some? ==> after[leadId].data == update.data.value)
              && (update.data.None? ==> after[leadId].data == sessions[leadId].data)
              && (update.currentQuestion.Some? ==> after[leadId].currentQuestion == update.currentQuestion.value)
              && (update.currentQuestion.None? ==> after[leadId].currentQuestion == sessions[leadId].currentQuestion)
              && (update.completed.Some? ==> after[leadId].completed == update.completed.value)
              && (update.completed.None? ==> after[leadId].completed == sessions[leadId].completed)
              && (update.questions.Some? ==> after[leadId].questions == update.questions.value)
              && (update.questions.None? ==> after[leadId].questions == sessions[leadId].questions)
    ensures Present(sessions, leadId) && update == Touch ==>
              after[leadId] == sessions[leadId].(lastActivity := now)
  {
    if Present(sessions, leadId) then sessions[leadId := Merge(sessions[leadId], update, now)] else sessions
  }

  /**
   * `get_next_question`: the store afterwards and the question asked. On a
   * missing or completed session nothing changes and nothing is asked.
   * Otherwise the question asked is the first one of the session's catalog
   * whose key is not yet answered, and it becomes the outstanding question;
   * when every key is answered, the session is marked completed, its
   * outstanding question cleared, and nothing is asked.
   */
  function NextQuestion(sessions: map<string, Session>, leadId: string): (r: (map<string, Session>, Option<Question>))
    ensures r.0.Keys == sessions.Keys
    ensures forall id :: id in sessions && id != leadId ==> r.0[id] == sessions[id]
    ensures !Present(sessions, leadId) || sessions[leadId].completed ==> r == (sessions, None)
    ensures r.1.Some? ==>
              Present(sessions, leadId)
              && r.1.value.key !in sessions[leadId].data
              && (exists i :: 0 <= i < |sessions[leadId].questions|
                    && sessions[leadId].questions[i] == r.1.value
                    && forall j :: 0 <= j < i ==> sessions[leadId].questions[j].key in sessions[leadId].data)
              && r.0[leadId] == sessions[leadId].(currentQuestion := Some(r.1.value.key))
    ensures Present(sessions, leadId) && !sessions[leadId].completed && r.1.None? ==>
              (forall q :: q in sessions[leadId].questions ==> q.key in sessions[leadId].data)
              && r.0[leadId] == sessions[leadId].(completed := true, currentQuestion := None)
  {
    if !Present(sessions, leadId) || sessions[leadId].completed then (sessions, None)
    else
      var session := sessions[leadId];
      match FirstUnanswered(session.questions, session.data)
      case Some(i) =>
        (sessions[leadId := session.(currentQuestion := Some(session.questions[i].key))], Some(session.questions[i]))
      case None =>
        (sessions[leadId := session.(completed := true, currentQuestion := None)], None)
  }

  /** `record_answer` succeeds: both ids are non-empty and the session exists. */
  predicate Recordable(sessions: map<string, Session>, leadId: string, key: string)
  {
    leadId != "" && key != "" && leadId in sessions
  }

  /**
   * The store after `record_answer`. It only stores the answer under `key`
   * and refreshes the activity time: the state, the outstanding question,
   * the completion flag and the catalog stay as they were, and so do the
   * other answers and the other sessions.
   */
  function AfterRecordAnswer(sessions: map<string, Session>, leadId: string, key: string, value: string, now: int): (after: map<string, Session>)
    ensures after.Keys == sessions.Keys
    ensures !Recordable(sessions, leadId, key) ==> after == sessions
    ensures forall id :: id in sessions && id != leadId ==> after[id] == sessions[id]
    ensures Recordable(sessions, leadId, key) ==>
              var prior, next := sessions[leadId], after[leadId];
              next.data.Keys == prior.data.Keys + {key}
              && next.data[key] == value
              && (forall k :: k in prior.data && k != key ==> next.data[k] == prior.data[k])
              && next.lastActivity == now
              && next.state == prior.state
              && next.currentQuestion == prior.currentQuestion
              && next.completed == prior.completed
              && next.questions == prior.questions
  {
    if Recordable(sessions, leadId, key) then
      var session := sessions[leadId];
      sessions[leadId := session.(data := session.data[key := value], lastActivity := now)]
    else
      sessions
  }

  /**
   * `check_inactive_sessions`: the sessions that are idle, that is older
   * than `hours` hours by the time simulator's measure, not completed, and
   * past the consent step (state not `initial`), each with its contents.
   */
  function Inactive(sessions: map<string, Session>, hours: int, now: int): (idle: map<string, Session>)
    ensures forall id :: id in idle <==>
              id in sessions
              && TimeUtils.IsOlderThan(now, sessions[id].lastActivity, hours)
              && !sessions[id].completed
              && sessions[id].state != Initial
    ensures forall id :: id in idle ==> idle[id] == sessions[id]
  {
    map id | id in sessions
             && sessions[id].lastActivity < now - TimeUtils.Hours(hours)
             && !sessions[id].completed
             && sessions[id].state != Initial
      :: sessions[id]
  }

  /**
   * The store after `end_session`: the session of a known id is removed and
   * nothing else changes; afterwards the id has no session, so a second
   * `end_session` fails.
   */
  function AfterEnd(sessions: map<string, Session>, leadId: string): (after: map<string, Session>)
    ensures Present(sessions, leadId) ==> after.Keys == sessions.Keys - {leadId}
    ensures !Present(sessions, leadId) ==> after == sessions
    ensures forall id :: id in after ==> id in sessions && after[id] == sessions[id]
    ensures !Present(after, leadId)
  {
    if Present(sessions, leadId) then sessions - {leadId} else sessions
  }

  /** `SessionManager`: the session map, mutated in place by its operations. */
  class SessionManager {

    var sessions: map<string, Session>

    constructor ()
      ensures sessions == map[]
    {
      sessions := map[];
    }

    /** `create_session` */
    method CreateSession(leadId: string, initialData: map<string, string>, now: int) returns (created: bool)
      modifies this
      ensures created == Creatable(old(sessions), leadId)
      ensures sessions == AfterCreate(old(sessions), leadId, initialData, now)
    {
      if leadId == "" {
        return false;
      }
      if leadId in sessions {
        return false;
      }
      sessions := sessions[leadId := NewSession(initialData, now)];
      created := true;
    }

    /** `get_session`: a copy of the session of a known id. */
    method GetSession(leadId: string) returns (session: Option<Session>)
      ensures session.Some? <==> Present(sessions, leadId)
      ensures session.Some? ==> session.value == sessions[leadId]
    {
      if leadId == "" {
        return None;
      }
      if leadId !in sessions {
        return None;
      }
      session := Some(sessions[leadId]);
    }

    /** `update_session` */
    method UpdateSession(leadId: string, update: SessionUpdate, now: int) returns (updated: bool)
      modifies this
      ensures updated == Present(old(sessions), leadId)
      ensures sessions == AfterUpdateSession(old(sessions), leadId, update, now)
    {
      if leadId == "" {
        return false;
      }
      if leadId !in sessions {
        return false;
      }
      sessions := sessions[leadId := Merge(sessions[leadId], update, now)];
      updated := true;
    }

    /** `get_next_question`: scans the session's catalog for the first unanswered key. */
    method GetNextQuestion(leadId: string) returns (question: Option<Question>)
      modifies this
      ensures (sessions, question) == NextQuestion(old(sessions), leadId)
    {
      if leadId == "" {
        return None;
      }
      if leadId !in sessions || sessions[leadId].completed {
        return None;
      }
      var session := sessions[leadId];
      var i := 0;
      while i < |session.questions|
        invariant 0 <= i <= |session.questions|
        invariant forall j :: 0 <= j < i ==> session.questions[j].key in session.data
        invariant sessions == old(sessions)
      {
        var candidate := session.questions[i];
        if candidate.key !in session.data {
          sessions := sessions[leadId := session.(currentQuestion := Some(candidate.key))];
          return Some(candidate);
        }
        i := i + 1;
      }
      sessions := sessions[leadId := session.(completed := true, currentQuestion := None)];
      question := None;
    }

    /** `record_answer` */
    method RecordAnswer(leadId: string, key: string, value: string, now: int) returns (recorded: bool)
      modifies this
      ensures recorded == Recordable(old(sessions), leadId, key)
      ensures sessions == AfterRecordAnswer(old(sessions), leadId, key, value, now)
    {
      if leadId == "" || key == "" {
        return false;
      }
      if leadId !in sessions {
        return false;
      }
      var session := sessions[leadId];
      sessions := sessions[leadId := session.(data := session.data[key := value], lastActivity := now)];
      recorded := true;
    }

    /** `check_inactive_sessions` */
    method CheckInactiveSessions(hours: int, now: int) returns (idle: map<string, Session>)
      ensures idle == Inactive(sessions, hours, now)
    {
      idle := map id | id in sessions
                       && sessions[id].lastActivity < now - TimeUtils.Hours(hours)
                       && !sessions[id].completed
                       && sessions[id].state != Initial
                :: sessions[id];
    }

    /** `end_session` */
    method EndSession(leadId: string) returns (ended: bool)
      modifies this
      ensures ended == Present(old(sessions), leadId)
      ensures sessions == AfterEnd(old(sessions), leadId)
    {
      if leadId == "" {
        return false;
      }
      if leadId in sessions {
        sessions := sessions - {leadId};
        return true;
      }
      return false;
    }
  }

  /**
   * On the fixed catalog the questions come in catalog order: age first,
   * then country, then interest, whatever else the answers hold.
   */
  lemma {:induction false} CatalogOrder(data: map<string, string>)
    ensures FirstUnanswered(Catalog, data) ==
            if AgeKey !in data then Some(0)
            else if CountryKey !in data then Some(1)
            else if InterestKey !in data then Some(2)
            else None
  {
    var next := FirstUnanswered(Catalog, data);
    if AgeKey !in data {
      assert Catalog[0].key !in data;
    } else if CountryKey !in data {
      assert Catalog[1].key !in data;
    } else if InterestKey !in data {
      assert Catalog[2].key !in data;
    } else {
      assert forall j :: 0 <= j < |Catalog| ==> Catalog[j].key in data;
    }
  }
}
