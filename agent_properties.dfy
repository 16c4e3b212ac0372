/**
 * What the conversation promises across calls (agent/agent.py together with
 * agent/session_manager.py and agent/data_handler.py): a consistency
 * invariant of the two stores that every operation keeps, and the
 * consequences the source's design relies on: the questions come in catalog
 * order, the outstanding question is never one already answered, a lead is
 * reminded only after it consented, a reminded lead is not reminded again
 * within the idle threshold, and a full conversation ends exactly once,
 * with the lead secured.
 */
module AgentProperties {

  import opened Wrappers
  import opened Text
  import opened Leads
  import opened Sessions
  import opened Agent
  import TimeUtils

  /** The answer keys a session can hold: the name from the trigger and the catalog's keys. */
  const AnswerKeys: set<string> := {"name", AgeKey, CountryKey, InterestKey}

  /** Every answer in the session is also in the lead's row. */
  predicate Mirrors(session: Session, lead: Lead)
  {
    forall k :: k in session.data ==> Cell(lead, k) == Some(session.data[k])
  }

  /** The catalog's questions were answered in order: no answer to a later question without the earlier ones. */
  predicate AnsweredInOrder(data: map<string, string>)
  {
    (CountryKey in data ==> AgeKey in data) && (InterestKey in data ==> CountryKey in data)
  }

  /** The outstanding question is the first catalog question not yet answered. */
  predicate AsksFirstUnanswered(session: Session)
  {
    var next := FirstUnanswered(Catalog, session.data);
    next.Some? && session.currentQuestion == Some(Catalog[next.value].key)
  }

  /**
   * A live session and its lead agree: the session has the catalog, is not
   * completed, holds only known answers, given in catalog order and each
   * copied into the lead; before
   * consent nothing is asked or answered and the lead is pending; after
   * consent the lead is in progress and the outstanding question is the
   * first unanswered one.
   */
  predicate SessionConsistent(session: Session, lead: Lead)
  {
    && session.questions == Catalog
    && !session.completed
    && session.data.Keys <= AnswerKeys
    && AnsweredInOrder(session.data)
    && Mirrors(session, lead)
    && (session.state == Initial || session.state == Questioning)
    && (session.state == Initial ==>
          session.currentQuestion.None? && lead.status == Pending
          && AgeKey !in session.data && CountryKey !in session.data && InterestKey !in session.data)
    && (session.state == Questioning ==> lead.status == InProgress && AsksFirstUnanswered(session))
  }

  /** Every session belongs to a lead of the table, and the two agree. */
  predicate Consistent(st: Stores)
  {
    forall id :: id in st.sessions ==> id != "" && id in st.leads && SessionConsistent(st.sessions[id], st.leads[id])
  }

  /** The agent starts with two empty stores, which are consistent. */
  lemma EmptyConsistent()
    ensures Consistent(Stores(map[], map[]))
  {
  }

  /** `trigger_agent` keeps the stores consistent. */
  lemma TriggerKeepsConsistent(st: Stores, leadId: string, name: string, now: int)
    requires Consistent(st)
    ensures Consistent(Triggered(st, leadId, name, now))
  {
    if Triggerable(st, leadId, name) {
      var after := Triggered(st, leadId, name, now);
      assert leadId !in st.sessions;
      forall id | id in after.sessions
        ensures id != "" && id in after.leads && SessionConsistent(after.sessions[id], after.leads[id])
      {
        if id == leadId {
          var session := after.sessions[id];
          assert session.data == map["name" := name];
          assert Mirrors(session, after.leads[id]);
        }
      }
    }
  }

  /**
   * Consent in state `initial`: the session moves to `questioning`, the lead
   * to `in_progress`, and the reply is the age question, which becomes the
   * outstanding one; the answers so far are kept.
   */
  lemma ConsentStep(st: Stores, leadId: string, response: string, now: int)
    requires Consistent(st) && Present(st.sessions, leadId) && st.sessions[leadId].state == Initial
    requires response != "" && IsConsent(response)
    ensures var turn := Respond(st, leadId, response, now);
            && turn.reply == Some(Catalog[0].text)
            && turn.stores.leads.Keys == st.leads.Keys
            && turn.stores.leads[leadId].status == InProgress
            && Present(turn.stores.sessions, leadId)
            && turn.stores.sessions[leadId].state == Questioning
            && turn.stores.sessions[leadId].currentQuestion == Some(AgeKey)
            && turn.stores.sessions[leadId].data == st.sessions[leadId].data
            && Consistent(turn.stores)
  {
    var session := st.sessions[leadId];
    var sessions := AfterUpdateSession(st.sessions, leadId, SetState(Questioning), now);
    var leads := AfterUpdate(st.leads, leadId, map["status" := InProgress], now);
    assert "status" in map["status" := InProgress] && "status" in Columns;
    assert sessions[leadId] == Merge(session, SetState(Questioning), now);
    CatalogOrder(session.data);
    var asked := NextQuestion(sessions, leadId);
    assert asked.0[leadId] == sessions[leadId].(currentQuestion := Some(AgeKey));
    var turn := Respond(st, leadId, response, now);
    assert turn == Turn(Stores(leads, asked.0), Some(Catalog[0].text));
    assert Cell(leads[leadId], "status") == Some(InProgress);
    forall id | id in asked.0
      ensures id != "" && id in leads && SessionConsistent(asked.0[id], leads[id])
    {
      if id == leadId {
        ConsentedConsistent(session, st.leads[leadId], asked.0[id], leads[id]);
      }
    }
  }

  /**
   * The consenting session and its lead agree again: the session now asks
   * the age question with the answers it had, and the lead is in progress
   * with its other cells as they were.
   */
  lemma ConsentedConsistent(session: Session, lead: Lead, next: Session, nextLead: Lead)
    requires SessionConsistent(session, lead) && session.state == Initial
    requires next.questions == Catalog && !next.completed && next.state == Questioning
    requires next.data == session.data && next.currentQuestion == Some(AgeKey)
    requires nextLead.status == InProgress
    requires forall c :: c != "status" ==> Cell(nextLead, c) == Cell(lead, c)
    ensures SessionConsistent(next, nextLead)
  {
    CatalogOrder(session.data);
    assert "status" !in AnswerKeys;
  }

  /**
   * Anything but consent in state `initial`: the lead becomes
   * `no_response`, the session is removed and the decline message is the
   * reply.
   */
  lemma DeclineStep(st: Stores, leadId: string, response: string, now: int)
    requires Consistent(st) && Present(st.sessions, leadId) && st.sessions[leadId].state == Initial
    requires response != "" && !IsConsent(response)
    ensures var turn := Respond(st, leadId, response, now);
            && turn.reply == Some(DeclineMessage)
            && turn.stores.leads.Keys == st.leads.Keys
            && turn.stores.leads[leadId].status == NoResponse
            && !Present(turn.stores.sessions, leadId)
            && Consistent(turn.stores)
  {
    var leads := AfterUpdate(st.leads, leadId, map["status" := NoResponse], now);
    assert "status" in map["status" := NoResponse] && "status" in Columns;
    assert Cell(leads[leadId], "status") == Some(NoResponse);
  }

  /** No question of the catalog reads like the completion message. */
  lemma QuestionsAreNotCompletion()
    ensures forall j :: 0 <= j < |Catalog| ==> Catalog[j].text != CompletionMessage
  {
    assert forall j :: 0 <= j < |Catalog| ==> |Catalog[j].text| < |CompletionMessage|;
  }

  /**
   * Answering the first open question of the catalog leaves a later one
   * open, or none at all when the answered one was the interest question.
   */
  lemma AnswerAdvances(data: map<string, string>, key: string, response: string, i: nat)
    requires AnsweredInOrder(data)
    requires FirstUnanswered(Catalog, data) == Some(i) && key == Catalog[i].key
    ensures AnsweredInOrder(data[key := response])
    ensures match FirstUnanswered(Catalog, data[key := response])
            case Some(j) => i < j && key != InterestKey
            case None => key == InterestKey
  {
    CatalogOrder(data);
    CatalogOrder(data[key := response]);
  }

  /** The lead-table half of an answer: the cell of the question takes the answer, `interest` also secures the lead. */
  lemma AnsweredLead(leads: map<string, Lead>, leadId: string, key: string, response: string, now: int)
    requires leadId != "" && leadId in leads && leads[leadId].status == InProgress
    requires key in {AgeKey, CountryKey, InterestKey}
    ensures var lead := AfterUpdate(leads, leadId, AnswerUpdates(key, response), now)[leadId];
            && Cell(lead, key) == Some(response)
            && lead.status == (if key == InterestKey then Secured else InProgress)
            && lead.lastUpdated == now
            && forall c :: c != key && c != "status" ==> Cell(lead, c) == Cell(leads[leadId], c)
  {
    var updates := AnswerUpdates(key, response);
    assert key in updates && key in Columns;
    var lead := AfterUpdate(leads, leadId, updates, now)[leadId];
    if key == InterestKey {
      assert "status" in updates;
      assert Cell(lead, "status") == Some(Secured);
    } else {
      assert "status" !in updates;
      assert Cell(lead, "status") == Cell(leads[leadId], "status");
    }
  }

  /**
   * The session half of an answer: the answer is recorded under the
   * outstanding key, then the next unanswered catalog question becomes the
   * outstanding one, or the session is marked completed.
   */
  lemma AnsweredSession(sessions: map<string, Session>, leadId: string, key: string, response: string, now: int)
    requires Present(sessions, leadId) && key != ""
    requires sessions[leadId].questions == Catalog && !sessions[leadId].completed
    ensures var answered := sessions[leadId].data[key := response];
            var asked := NextQuestion(AfterRecordAnswer(sessions, leadId, key, response, now), leadId);
            && asked.0.Keys == sessions.Keys
            && (forall id :: id in sessions && id != leadId ==> asked.0[id] == sessions[id])
            && match FirstUnanswered(Catalog, answered)
               case Some(j) =>
                 && asked.1 == Some(Catalog[j])
                 && asked.0[leadId] == sessions[leadId].(data := answered, lastActivity := now, currentQuestion := Some(Catalog[j].key))
               case None =>
                 && asked.1.None?
                 && asked.0[leadId] == sessions[leadId].(data := answered, lastActivity := now, completed := true, currentQuestion := None)
  {
    var recorded := AfterRecordAnswer(sessions, leadId, key, response, now);
    assert recorded[leadId] == sessions[leadId].(data := sessions[leadId].data[key := response], lastActivity := now);
  }

  /**
   * An answer in state `questioning` goes to the outstanding question, which
   * is one not yet answered: it is stored in the session and in the lead's
   * row, the lead becomes `secured` exactly when the question was the
   * interest one, and the other cells keep their values. Then the next
   * unanswered question is asked or, when none is left, the completion
   * message is the reply and the session is gone.
   */
  lemma AnswerStep(st: Stores, leadId: string, response: string, now: int)
    requires Consistent(st) && Present(st.sessions, leadId) && st.sessions[leadId].state == Questioning
    requires response != ""
    ensures st.sessions[leadId].currentQuestion.Some?
    ensures var key := st.sessions[leadId].currentQuestion.value;
            var lead := Respond(st, leadId, response, now).stores.leads[leadId];
            && key !in st.sessions[leadId].data
            && Cell(lead, key) == Some(response)
            && lead.status == (if key == InterestKey then Secured else InProgress)
            && lead.lastUpdated == now
            && forall c :: c != key && c != "status" ==> Cell(lead, c) == Cell(st.leads[leadId], c)
    ensures var key := st.sessions[leadId].currentQuestion.value;
            var answered := st.sessions[leadId].data[key := response];
            var turn := Respond(st, leadId, response, now);
            match FirstUnanswered(Catalog, answered)
            case Some(j) =>
              && turn.reply == Some(Catalog[j].text)
              && turn.reply != Some(CompletionMessage)
              && Present(turn.stores.sessions, leadId)
              && turn.stores.sessions[leadId].state == Questioning
              && turn.stores.sessions[leadId].data == answered
              && turn.stores.sessions[leadId].currentQuestion == Some(Catalog[j].key)
            case None =>
              && key == InterestKey
              && turn.reply == Some(CompletionMessage)
              && !Present(turn.stores.sessions, leadId)
    ensures Respond(st, leadId, response, now).stores.leads.Keys == st.leads.Keys
  {
    var session := st.sessions[leadId];
    assert SessionConsistent(session, st.leads[leadId]);
    var key := session.currentQuestion.value;
    AnswerAdvances(session.data, key, response, FirstUnanswered(Catalog, session.data).value);
    QuestionsAreNotCompletion();
    AnsweredLead(st.leads, leadId, key, response, now);
    AnsweredSession(st.sessions, leadId, key, response, now);
    var turn := Respond(st, leadId, response, now);
    assert turn == RespondToQuestion(st, leadId, session, response, now);
  }

  /** An answer in state `questioning` keeps the stores consistent. */
  lemma AnswerKeepsConsistent(st: Stores, leadId: string, response: string, now: int)
    requires Consistent(st) && Present(st.sessions, leadId) && st.sessions[leadId].state == Questioning
    requires response != ""
    ensures Consistent(Respond(st, leadId, response, now).stores)
  {
    var session := st.sessions[leadId];
    assert SessionConsistent(session, st.leads[leadId]);
    var key := session.currentQuestion.value;
    AnswerStep(st, leadId, response, now);
    AnswerFrame(st, leadId, response, now);
    var after := Respond(st, leadId, response, now).stores;
    forall id | id in after.sessions
      ensures id != "" && id in after.leads && SessionConsistent(after.sessions[id], after.leads[id])
    {
      if id == leadId {
        AnsweredConsistent(session, st.leads[leadId], key, response, after.sessions[id], after.leads[id]);
      } else {
        assert SessionConsistent(st.sessions[id], st.leads[id]);
      }
    }
  }

  /** What an answer leaves of the other sessions and leads: all as they were; and the answered session keeps its catalog and stays open. */
  lemma AnswerFrame(st: Stores, leadId: string, response: string, now: int)
    requires Consistent(st) && Present(st.sessions, leadId) && st.sessions[leadId].state == Questioning
    requires response != ""
    ensures var after := Respond(st, leadId, response, now).stores;
            && (forall id :: id in after.sessions && id != leadId ==> id in st.sessions && after.sessions[id] == st.sessions[id])
            && (forall id :: id in st.leads && id != leadId ==> id in after.leads && after.leads[id] == st.leads[id])
            && (leadId in after.sessions ==> after.sessions[leadId].questions == Catalog && !after.sessions[leadId].completed)
  {
    var session := st.sessions[leadId];
    assert SessionConsistent(session, st.leads[leadId]);
    var key := session.currentQuestion.value;
    AnsweredSession(st.sessions, leadId, key, response, now);
    var turn := Respond(st, leadId, response, now);
    assert turn == RespondToQuestion(st, leadId, session, response, now);
  }

  /**
   * The answered session and its lead agree again when the session goes on
   * to the next question: the answer is in both, the lead stays in progress
   * and the outstanding question is the next unanswered one.
   */
  lemma AnsweredConsistent(session: Session, lead: Lead, key: string, response: string, next: Session, nextLead: Lead)
    requires SessionConsistent(session, lead) && session.state == Questioning && session.currentQuestion == Some(key)
    requires Cell(nextLead, key) == Some(response)
    requires nextLead.status == (if key == InterestKey then Secured else InProgress)
    requires forall c :: c != key && c != "status" ==> Cell(nextLead, c) == Cell(lead, c)
    requires next.questions == Catalog && !next.completed && next.state == Questioning
    requires next.data == session.data[key := response]
    requires FirstUnanswered(Catalog, next.data).Some?
    requires next.currentQuestion == Some(Catalog[FirstUnanswered(Catalog, next.data).value].key)
    ensures SessionConsistent(next, nextLead)
  {
    AnswerAdvances(session.data, key, response, FirstUnanswered(Catalog, session.data).value);
    assert key != InterestKey;
    assert "status" !in AnswerKeys;
  }

  /** `handle_response` keeps the stores consistent, whatever the response. */
  lemma RespondKeepsConsistent(st: Stores, leadId: string, response: string, now: int)
    requires Consistent(st)
    ensures Consistent(Respond(st, leadId, response, now).stores)
  {
    if leadId != "" && response != "" && Lookup(st.leads, leadId).Some? && Present(st.sessions, leadId) {
      var session := st.sessions[leadId];
      assert SessionConsistent(session, st.leads[leadId]);
      if session.state == Initial {
        if IsConsent(response) {
          ConsentStep(st, leadId, response, now);
        } else {
          DeclineStep(st, leadId, response, now);
        }
      } else {
        AnswerKeepsConsistent(st, leadId, response, now);
      }
    }
  }

  /** The follow-up tick's touch keeps the stores consistent. */
  lemma TouchKeepsConsistent(st: Stores, targets: set<string>, now: int)
    requires Consistent(st)
    ensures Consistent(Stores(st.leads, Touched(st.sessions, targets, now)))
  {
    var touched := Touched(st.sessions, targets, now);
    forall id | id in touched
      ensures id != "" && id in st.leads && SessionConsistent(touched[id], st.leads[id])
    {
      assert touched[id] == st.sessions[id] || touched[id] == st.sessions[id].(lastActivity := now);
    }
  }

  /**
   * `handle_response` answers nothing and changes nothing when the id or the
   * response is empty, the lead is unknown or it has no session, or when a
   * `questioning` session has no outstanding question.
   */
  lemma IgnoredResponses(st: Stores, leadId: string, response: string, now: int)
    ensures leadId == "" || response == "" || leadId !in st.leads || leadId !in st.sessions ==>
              Respond(st, leadId, response, now) == Turn(st, None)
    ensures Present(st.sessions, leadId) && st.sessions[leadId].state == Questioning
            && (st.sessions[leadId].currentQuestion.None? || st.sessions[leadId].currentQuestion == Some("")) ==>
              Respond(st, leadId, response, now) == Turn(st, None)
  {
  }

  /** Only the answer to the last open question, the interest one, completes a conversation. */
  lemma CompletingAnswer(st: Stores, leadId: string, response: string, now: int)
    requires Consistent(st) && Present(st.sessions, leadId) && st.sessions[leadId].state == Questioning
    requires response != ""
    ensures var turn := Respond(st, leadId, response, now);
            turn.reply == Some(CompletionMessage) ==>
              && st.sessions[leadId].currentQuestion == Some(InterestKey)
              && leadId in turn.stores.leads && turn.stores.leads[leadId].status == Secured
              && !Present(turn.stores.sessions, leadId)
  {
    var session := st.sessions[leadId];
    assert SessionConsistent(session, st.leads[leadId]);
    AnswerStep(st, leadId, response, now);
  }

  /**
   * Exactly one completion: the response that gets the completion message
   * secures the lead and removes its session, so no later response to that
   * lead gets a reply or changes anything.
   */
  lemma CompletionIsFinal(st: Stores, leadId: string, response: string, now: int, later: string, afterwards: int)
    requires Consistent(st)
    ensures var turn := Respond(st, leadId, response, now);
            turn.reply == Some(CompletionMessage) ==>
              && leadId in turn.stores.leads && turn.stores.leads[leadId].status == Secured
              && !Present(turn.stores.sessions, leadId)
              && Respond(turn.stores, leadId, later, afterwards) == Turn(turn.stores, None)
  {
    var turn := Respond(st, leadId, response, now);
    if leadId != "" && response != "" && Lookup(st.leads, leadId).Some? && Present(st.sessions, leadId) {
      var session := st.sessions[leadId];
      assert SessionConsistent(session, st.leads[leadId]);
      if session.state == Initial {
        assert turn.reply != Some(CompletionMessage) by {
          if IsConsent(response) {
            ConsentStep(st, leadId, response, now);
            assert |Catalog[0].text| != |CompletionMessage|;
          } else {
            DeclineStep(st, leadId, response, now);
            assert |DeclineMessage| != |CompletionMessage|;
          }
        }
      } else {
        CompletingAnswer(st, leadId, response, now);
      }
    }
  }

  /**
   * No reminder before consent: a lead the tick reminds has a session past
   * the consent step and is in progress. On consistent stores the tick
   * reminds exactly the idle sessions, since every session past consent
   * belongs to a lead in progress.
   */
  lemma RemindedOnlyAfterConsent(st: Stores, now: int)
    requires Consistent(st)
    ensures forall id :: id in FollowUpTargets(st, now) ==>
              id in st.sessions && st.sessions[id].state == Questioning && st.leads[id].status == InProgress
    ensures FollowUpTargets(st, now) == Inactive(st.sessions, FollowUpHours, now).Keys
  {
    var idle := Inactive(st.sessions, FollowUpHours, now);
    forall id | id in idle
      ensures id in FollowUpTargets(st, now)
    {
      assert SessionConsistent(st.sessions[id], st.leads[id]);
    }
    forall id | id in FollowUpTargets(st, now)
      ensures id in st.sessions && st.sessions[id].state == Questioning && st.leads[id].status == InProgress
    {
      assert SessionConsistent(st.sessions[id], st.leads[id]);
    }
  }

  /**
   * A lead reminded at `now` is not reminded again by a tick up to
   * `FollowUpHours` later, since the reminder refreshed its session; and a
   * second tick at the same instant reminds nobody.
   */
  lemma NoRepeatReminder(st: Stores, now: int, later: int)
    requires now <= later <= now + TimeUtils.Hours(FollowUpHours)
    ensures var after := Stores(st.leads, Touched(st.sessions, FollowUpTargets(st, now), now));
            && FollowUpTargets(after, later) !! FollowUpTargets(st, now)
            && FollowUpTargets(after, now) == {}
  {
    var targets := FollowUpTargets(st, now);
    var after := Stores(st.leads, Touched(st.sessions, targets, now));
    forall id | id in targets
      ensures id !in FollowUpTargets(after, later) && id !in FollowUpTargets(after, now)
    {
      assert after.sessions[id].lastActivity == now;
    }
    forall id | id in FollowUpTargets(after, now)
      ensures id in targets
    {
    }
  }

  /** The simulator's "yes" is consent. */
  lemma YesIsConsent()
    ensures IsConsent("yes")
  {
    assert Lower("yes") == "yes";
  }

  /** The Kelvin sign lower-cases to `k`, so "oK" written with it is consent, in any case. */
  lemma KelvinConsent()
    ensures IsConsent("o\U{212A}") && IsConsent("O\U{212A}AY")
  {
    assert Lower("o\U{212A}") == "ok";
    assert Lower("O\U{212A}AY") == "okay";
  }

  /** Trigger, then consent: the age question is asked of a session holding only the name. */
  lemma Opening(st: Stores, leadId: string, name: string, t0: int, t1: int)
    requires Consistent(st) && Triggerable(st, leadId, name)
    ensures var r1 := Respond(Triggered(st, leadId, name, t0), leadId, "yes", t1);
            && r1.reply == Some(Catalog[0].text)
            && Consistent(r1.stores)
            && Present(r1.stores.sessions, leadId) && r1.stores.sessions[leadId].state == Questioning
            && r1.stores.sessions[leadId].data == map["name" := name]
            && leadId in r1.stores.leads && Cell(r1.stores.leads[leadId], "name") == Some(name)
  {
    var s0 := Triggered(st, leadId, name, t0);
    TriggerKeepsConsistent(st, leadId, name, t0);
    assert leadId !in st.sessions;
    assert s0.sessions[leadId].data == map["name" := name];
    YesIsConsent();
    ConsentStep(s0, leadId, "yes", t1);
  }

  /**
   * An answer to a question that is not the last: the answer is stored in
   * both stores and the catalog's next question is asked.
   */
  lemma AnswerInOrder(st: Stores, leadId: string, response: string, now: int, key: string, nextKey: nat)
    requires Consistent(st) && Present(st.sessions, leadId) && st.sessions[leadId].state == Questioning
    requires response != ""
    requires FirstUnanswered(Catalog, st.sessions[leadId].data) == Some(nextKey - 1) && key == Catalog[nextKey - 1].key
    requires FirstUnanswered(Catalog, st.sessions[leadId].data[key := response]) == Some(nextKey)
    ensures var r := Respond(st, leadId, response, now);
            && r.reply == Some(Catalog[nextKey].text)
            && Consistent(r.stores)
            && Present(r.stores.sessions, leadId) && r.stores.sessions[leadId].state == Questioning
            && r.stores.sessions[leadId].data == st.sessions[leadId].data[key := response]
            && r.stores.leads.Keys == st.leads.Keys
            && Cell(r.stores.leads[leadId], key) == Some(response)
            && forall c :: c != key && c != "status" ==> Cell(r.stores.leads[leadId], c) == Cell(st.leads[leadId], c)
  {
    assert SessionConsistent(st.sessions[leadId], st.leads[leadId]);
    AnswerStep(st, leadId, response, now);
    AnswerKeepsConsistent(st, leadId, response, now);
  }

  /**
   * The conversation waits for an answer to question `asked` of the
   * catalog, holding the name and the answers to the questions before it,
   * each also in the lead's row.
   */
  predicate AwaitingAnswer(st: Stores, leadId: string, answers: map<string, string>, asked: nat)
  {
    && Consistent(st)
    && Present(st.sessions, leadId) && st.sessions[leadId].state == Questioning
    && st.sessions[leadId].data == answers
    && leadId in st.leads
    && (forall k :: k in answers ==> Cell(st.leads[leadId], k) == Some(answers[k]))
    && FirstUnanswered(Catalog, answers) == Some(asked)
  }

  /** The last answer completes the conversation and secures the lead with all three answers. */
  lemma LastAnswer(st: Stores, leadId: string, name: string, age: string, country: string, interest: string,
                   t4: int, last: string, t5: int)
    requires AwaitingAnswer(st, leadId, map["name" := name, AgeKey := age, CountryKey := country], 2)
    requires interest != ""
    ensures var r4 := Respond(st, leadId, interest, t4);
            && r4.reply == Some(CompletionMessage)
            && leadId in r4.stores.leads
            && r4.stores.leads[leadId] == Lead(name, Some(age), Some(country), Some(interest), Secured, t4)
            && !Present(r4.stores.sessions, leadId)
            && Respond(r4.stores, leadId, last, t5) == Turn(r4.stores, None)
  {
    var answers := map["name" := name, AgeKey := age, CountryKey := country];
    CatalogOrder(answers);
    CatalogOrder(answers[InterestKey := interest]);
    var before := st.leads[leadId];
    assert "name" in answers && AgeKey in answers && CountryKey in answers;
    assert Cell(before, "name") == Some(name) && Cell(before, AgeKey) == Some(age) && Cell(before, CountryKey) == Some(country);
    assert SessionConsistent(st.sessions[leadId], st.leads[leadId]);
    AnswerStep(st, leadId, interest, t4);
    var r4 := Respond(st, leadId, interest, t4);
    SecuredRow(before, r4.stores.leads[leadId], name, age, country, interest, t4);
  }

  /** A row that took the interest answer over one holding the name, age and country is the complete secured row. */
  lemma SecuredRow(before: Lead, lead: Lead, name: string, age: string, country: string, interest: string, now: int)
    requires Cell(before, "name") == Some(name) && Cell(before, AgeKey) == Some(age) && Cell(before, CountryKey) == Some(country)
    requires Cell(lead, InterestKey) == Some(interest) && lead.status == Secured && lead.lastUpdated == now
    requires forall c :: c != InterestKey && c != "status" ==> Cell(lead, c) == Cell(before, c)
    ensures lead == Lead(name, Some(age), Some(country), Some(interest), Secured, now)
  {
    assert Cell(lead, "name") == Cell(before, "name");
    assert Cell(lead, AgeKey) == Cell(before, AgeKey);
    assert Cell(lead, CountryKey) == Cell(before, CountryKey);
  }

  /** Answering the age and then the country question leads to the last answer. */
  lemma MiddleAnswers(st: Stores, leadId: string, name: string, age: string, country: string, interest: string,
                      t2: int, t3: int, t4: int, last: string, t5: int)
    requires AwaitingAnswer(st, leadId, map["name" := name], 0)
    requires age != "" && country != "" && interest != ""
    ensures var r2 := Respond(st, leadId, age, t2);
            var r3 := Respond(r2.stores, leadId, country, t3);
            var r4 := Respond(r3.stores, leadId, interest, t4);
            && r2.reply == Some(Catalog[1].text)
            && r3.reply == Some(Catalog[2].text)
            && r4.reply == Some(CompletionMessage)
            && leadId in r4.stores.leads
            && r4.stores.leads[leadId] == Lead(name, Some(age), Some(country), Some(interest), Secured, t4)
            && !Present(r4.stores.sessions, leadId)
            && Respond(r4.stores, leadId, last, t5) == Turn(r4.stores, None)
  {
    var d1 := map["name" := name];
    var d2 := d1[AgeKey := age];
    var d3 := d2[CountryKey := country];
    CatalogOrder(d2);
    CatalogOrder(d3);
    assert SessionConsistent(st.sessions[leadId], st.leads[leadId]);
    AnswerInOrder(st, leadId, age, t2, AgeKey, 1);
    var r2 := Respond(st, leadId, age, t2);
    assert AwaitingAnswer(r2.stores, leadId, d2, 1);
    AnswerInOrder(r2.stores, leadId, country, t3, CountryKey, 2);
    var r3 := Respond(r2.stores, leadId, country, t3);
    assert d3 == map["name" := name, AgeKey := age, CountryKey := country];
    assert AwaitingAnswer(r3.stores, leadId, d3, 2);
    LastAnswer(r3.stores, leadId, name, age, country, interest, t4, last, t5);
  }

  /**
   * A whole conversation: trigger, consent, then the three answers. The
   * questions come in catalog order (age, country, interest), the last
   * answer is met with the completion message, the lead ends up secured
   * with the three answers, and the session is gone, so any further
   * response gets no reply and changes nothing.
   */
  lemma {:induction false} FullConversation(st: Stores, leadId: string, name: string,
                                            age: string, country: string, interest: string, last: string,
                                            t0: int, t1: int, t2: int, t3: int, t4: int, t5: int)
    requires Consistent(st) && Triggerable(st, leadId, name)
    requires age != "" && country != "" && interest != ""
    ensures var s0 := Triggered(st, leadId, name, t0);
            var r1 := Respond(s0, leadId, "yes", t1);
            var r2 := Respond(r1.stores, leadId, age, t2);
            var r3 := Respond(r2.stores, leadId, country, t3);
            var r4 := Respond(r3.stores, leadId, interest, t4);
            && r1.reply == Some(Catalog[0].text)
            && r2.reply == Some(Catalog[1].text)
            && r3.reply == Some(Catalog[2].text)
            && r4.reply == Some(CompletionMessage)
            && leadId in r4.stores.leads
            && r4.stores.leads[leadId] == Lead(name, Some(age), Some(country), Some(interest), Secured, t4)
            && !Present(r4.stores.sessions, leadId)
            && Respond(r4.stores, leadId, last, t5) == Turn(r4.stores, None)
  {
    var s0 := Triggered(st, leadId, name, t0);
    Opening(st, leadId, name, t0, t1);
    var r1 := Respond(s0, leadId, "yes", t1);
    CatalogOrder(map["name" := name]);
    assert AwaitingAnswer(r1.stores, leadId, map["name" := name], 0);
    MiddleAnswers(r1.stores, leadId, name, age, country, interest, t2, t3, t4, last, t5);
  }
}
