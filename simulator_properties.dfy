/**
 * What the lead simulator (simulations/lead_simulator.py) promises about the
 * agent it drives: its reading of the agent's messages agrees with what the
 * agent did to the lead, a settled record stays settled, a conversation
 * sends at most one more message than it has answers, and a conversation
 * with three answers ends with the lead secured on both sides.
 */
module SimulatorProperties {

  import opened Wrappers
  import opened Text
  import opened Leads
  import opened Sessions
  import opened Agent
  import opened Simulation
  import AgentProperties

  /** Recording an exchange keeps a settled record settled. */
  lemma RecordedKeepsSettled(lead: SimLead, said: string, reply: Option<string>, now: int)
    requires Settled(lead)
    ensures Settled(Recorded(lead, said, reply, now))
  {
  }

  /** A new record is settled: pending and not completed. */
  lemma NewSimLeadSettled(name: string, now: int)
    ensures Settled(NewSimLead(name, now)) && !NewSimLead(name, now).completed
  {
  }

  /** `sub in pre + sub + post`. */
  lemma {:induction false} ContainsPart(pre: string, sub: string, post: string)
    ensures Contains(pre + sub + post, sub)
  {
    if pre == [] {
      assert (pre + sub + post)[..|sub|] == sub;
    } else {
      ContainsPart(pre[1..], sub, post);
      assert (pre + sub + post)[1..] == pre[1..] + sub + post;
    }
  }

  /** The completion message carries the securing marker. */
  lemma CompletionCarriesMarker(message: string)
    requires message == CompletionMessage
    ensures Contains(message, SecuredMarker)
  {
    ContainsPart("", SecuredMarker, " all the information!" + " We'll be in touch soon.");
    assert message == "" + SecuredMarker + (" all the information!" + " We'll be in touch soon.");
  }

  /** The decline message carries the declining marker and not the securing one. */
  lemma DeclineCarriesMarker(message: string)
    requires message == DeclineMessage
    ensures Contains(message, DeclinedMarker) && !Contains(message, SecuredMarker)
  {
    ContainsPart("Alright, ", DeclinedMarker, ". Have a great day!");
    assert 'T' !in "Alright, " && 'T' !in DeclinedMarker && 'T' !in ". Have a great day!";
    assert SecuredMarker[0] == 'T';
    MissingCharNotContained(message, SecuredMarker, 'T');
  }

  /** A text without a capital T and without a b carries neither marker. */
  lemma NoMarkers(text: string)
    requires 'T' !in text && 'b' !in text
    ensures !Contains(text, SecuredMarker) && !Contains(text, DeclinedMarker)
  {
    assert SecuredMarker[0] == 'T';
    assert DeclinedMarker[6] == 'b';
    MissingCharNotContained(text, SecuredMarker, 'T');
    MissingCharNotContained(text, DeclinedMarker, 'b');
  }

  /** The age question has no capital T and no b. */
  lemma AgeQuestionLetters()
    ensures 'T' !in AgeText && 'b' !in AgeText
  {
  }

  /** The country question has no capital T and no b. */
  lemma CountryQuestionLetters()
    ensures 'T' !in CountryText && 'b' !in CountryText
  {
    assert 'T' !in "Which country " && 'b' !in "Which country ";
    assert 'T' !in "are you from?" && 'b' !in "are you from?";
  }

  /** The interest question has no capital T and no b. */
  lemma InterestQuestionLetters()
    ensures 'T' !in InterestText && 'b' !in InterestText
  {
    var first, second := "What product or service ", "are you interested in?";
    assert forall i :: 0 <= i < |first| ==> first[i] != 'T' && first[i] != 'b';
    assert forall i :: 0 <= i < |second| ==> second[i] != 'T' && second[i] != 'b';
    assert InterestText == first + second;
  }

  /** No question of the catalog has a capital T or a b. */
  lemma QuestionLetters(q: Question)
    requires q in Catalog
    ensures 'T' !in q.text && 'b' !in q.text
  {
    AgeQuestionLetters();
    CountryQuestionLetters();
    InterestQuestionLetters();
    assert q == Catalog[0] || q == Catalog[1] || q == Catalog[2];
  }

  /** The completion message closes the record as secured. */
  lemma CompletionSecures(lead: SimLead, said: string, reply: Option<string>, now: int)
    requires reply == Some(CompletionMessage)
    ensures var after := Recorded(lead, said, reply, now);
            after.completed && after.status == Secured
  {
    CompletionCarriesMarker(reply.value);
  }

  /** The decline message closes the record as unresponsive. */
  lemma DeclineCloses(lead: SimLead, said: string, reply: Option<string>, now: int)
    requires reply == Some(DeclineMessage)
    ensures var after := Recorded(lead, said, reply, now);
            after.completed && after.status == NoResponse
  {
    DeclineCarriesMarker(reply.value);
  }

  /** A question of the catalog leaves the record as it was. */
  lemma QuestionKeepsStatus(lead: SimLead, said: string, reply: Option<string>, now: int)
    requires exists q :: q in Catalog && reply == Some(q.text)
    ensures var after := Recorded(lead, said, reply, now);
            after.completed == lead.completed && after.status == lead.status
  {
    var q :| q in Catalog && reply == Some(q.text);
    QuestionLetters(q);
    NoMarkers(q.text);
  }

  /** With consistent stores the agent replies with a catalog question, the decline or the completion message, or not at all. */
  lemma AgentReplies(st: Stores, leadId: string, response: string, now: int)
    requires AgentProperties.Consistent(st)
    ensures var reply := Respond(st, leadId, response, now).reply;
            || reply.None?
            || reply == Some(DeclineMessage)
            || reply == Some(CompletionMessage)
            || exists q :: q in Catalog && reply == Some(q.text)
  {
    if leadId != "" && response != "" && Lookup(st.leads, leadId).Some? && Present(st.sessions, leadId) {
      var session := st.sessions[leadId];
      assert AgentProperties.SessionConsistent(session, st.leads[leadId]);
      if session.state == Initial && IsConsent(response) {
        AgentProperties.ConsentStep(st, leadId, response, now);
      } else if session.state == Questioning {
        var turn := Respond(st, leadId, response, now);
        if turn.reply.Some? && turn.reply.value != CompletionMessage {
          AgentProperties.AnswerStep(st, leadId, response, now);
        }
      }
    }
  }

  /**
   * The simulator's reading of a reply agrees with the agent: the
   * completion message secures the record exactly when the agent secured
   * the lead, the decline message closes it exactly as the agent closed the
   * lead, and every other reply leaves the record's status alone.
   */
  lemma ReadingFollowsAgent(st: Stores, lead: SimLead, leadId: string, response: string, now: int)
    requires AgentProperties.Consistent(st)
    ensures var turn := Respond(st, leadId, response, now);
            var after := Recorded(lead, response, turn.reply, now);
            && (turn.reply == Some(CompletionMessage) ==>
                  && after.completed && after.status == Secured
                  && leadId in turn.stores.leads && turn.stores.leads[leadId].status == Secured)
            && (turn.reply == Some(DeclineMessage) ==>
                  && after.completed && after.status == NoResponse
                  && leadId in turn.stores.leads && turn.stores.leads[leadId].status == NoResponse)
            && (turn.reply != Some(CompletionMessage) && turn.reply != Some(DeclineMessage) ==>
                  after.completed == lead.completed && after.status == lead.status)
  {
    var turn := Respond(st, leadId, response, now);
    assert |DeclineMessage| != |CompletionMessage|;
    if leadId != "" && response != "" && Lookup(st.leads, leadId).Some? && Present(st.sessions, leadId) {
      var session := st.sessions[leadId];
      assert AgentProperties.SessionConsistent(session, st.leads[leadId]);
      if session.state == Initial && IsConsent(response) {
        AgentProperties.ConsentStep(st, leadId, response, now);
        QuestionIsNeitherMessage(Catalog[0]);
        QuestionKeepsStatus(lead, response, turn.reply, now);
      } else if session.state == Initial {
        AgentProperties.DeclineStep(st, leadId, response, now);
        DeclineCloses(lead, response, turn.reply, now);
      } else {
        AgentProperties.AnswerStep(st, leadId, response, now);
        var key := session.currentQuestion.value;
        match FirstUnanswered(Catalog, session.data[key := response])
        case Some(j) =>
          QuestionIsNeitherMessage(Catalog[j]);
          QuestionKeepsStatus(lead, response, turn.reply, now);
        case None =>
          CompletionSecures(lead, response, turn.reply, now);
      }
    }
  }

  /** No question of the catalog is the completion or the decline message. */
  lemma QuestionIsNeitherMessage(q: Question)
    requires q in Catalog
    ensures q.text != CompletionMessage && q.text != DeclineMessage
  {
    QuestionLetters(q);
    assert 'b' in DeclinedMarker;
    assert |q.text| < |CompletionMessage|;
  }

  /**
   * The answer loop sends answers in order until the first falsy reply:
   * every answer sent is recorded after the earlier exchanges, one line is
   * kept per truthy reply, and the loop stops early only after a falsy one.
   */
  lemma {:induction false} ConverseLength(stores: Stores, lead: SimLead, leadId: string, answers: seq<string>, now: int)
    decreases |answers|
    ensures var r := Converse(stores, lead, leadId, answers, now);
            && |r.lines| <= |answers|
            && |r.lead.responses| == |lead.responses| + |r.lines| + (if |r.lines| < |answers| then 1 else 0)
            && r.lead.responses[..|lead.responses|] == lead.responses
            && r.lead.name == lead.name && r.lead.createdAt == lead.createdAt
  {
    if answers != [] {
      var turn := Respond(stores, leadId, answers[0], now);
      var recorded := Recorded(lead, answers[0], turn.reply, now);
      if Truthy(turn.reply) {
        ConverseLength(turn.stores, recorded, leadId, answers[1..], now);
        var rest := Converse(turn.stores, recorded, leadId, answers[1..], now);
        assert rest.lead.responses[..|lead.responses|] == rest.lead.responses[..|recorded.responses|][..|lead.responses|];
      } else {
        assert recorded.responses[..|lead.responses|] == lead.responses;
      }
    }
  }

  /** A whole conversation keeps at most one line per message sent: the opening "yes" and each answer. */
  lemma ConversationLength(stores: Stores, lead: SimLead, leadId: string, answers: seq<string>, now: int)
    ensures var r := Conversation(stores, lead, leadId, answers, now);
            && |r.lines| <= |answers| + 1
            && |lead.responses| + 1 <= |r.lead.responses| <= |lead.responses| + 1 + |answers|
            && r.lead.responses[..|lead.responses|] == lead.responses
  {
    var opening := Respond(stores, leadId, "yes", now);
    var first := Recorded(lead, "yes", opening.reply, now);
    ConverseLength(opening.stores, first, leadId, answers, now);
    var rest := Converse(opening.stores, first, leadId, answers, now);
    assert rest.lead.responses[..|lead.responses|] == rest.lead.responses[..|first.responses|][..|lead.responses|];
  }

  /**
   * A simulated answer met by a question of the catalog: the simulator
   * keeps the question as a line, leaves its record's status alone, and
   * the loop goes on.
   */
  lemma SimulatedAnswer(st: Stores, leadId: string, response: string, rest: seq<string>, lead: SimLead, now: int,
                        turn: Turn, q: Question)
    requires turn == Respond(st, leadId, response, now)
    requires q in Catalog && turn.reply == Some(q.text)
    ensures var recorded := Recorded(lead, response, turn.reply, now);
            && recorded == lead.(responses := lead.responses + [Interaction(now, response, turn.reply)])
            && Converse(st, lead, leadId, [response] + rest, now)
               == Continue([AgentLine(q.text)], Converse(turn.stores, recorded, leadId, rest, now))
  {
    QuestionKeepsStatus(lead, response, turn.reply, now);
    assert ([response] + rest)[0] == response && ([response] + rest)[1..] == rest;
  }

  /**
   * A simulated answer met by the completion message: the simulator keeps
   * it and reads it as securing the lead; when the agent has no reply to
   * the next answer, the loop ends there.
   */
  lemma SimulatedLastAnswer(st: Stores, leadId: string, response: string, more: seq<string>, lead: SimLead, now: int,
                            turn: Turn)
    requires turn == Respond(st, leadId, response, now) && turn.reply == Some(CompletionMessage)
    requires more != [] ==> Respond(turn.stores, leadId, more[0], now) == Turn(turn.stores, None)
    ensures var c := Converse(st, lead, leadId, [response] + more, now);
            && c.lines == [AgentLine(CompletionMessage)]
            && c.stores == turn.stores
            && c.lead.completed && c.lead.status == Secured
            && c.lead.responses == lead.responses + [Interaction(now, response, turn.reply)]
                                   + (if more == [] then [] else [Interaction(now, more[0], None)])
  {
    CompletionSecures(lead, response, turn.reply, now);
    assert ([response] + more)[0] == response && ([response] + more)[1..] == more;
    var recorded := Recorded(lead, response, turn.reply, now);
    if more != [] {
      assert Converse(turn.stores, recorded, leadId, more, now)
             == Exchange(turn.stores, Recorded(recorded, more[0], None, now), []);
    }
  }

  /** Three answers and the rest, taken apart one at a time. */
  lemma Unconsed<T>(a: T, b: T, c: T, more: seq<T>)
    ensures [a, b, c] + more == [a] + ([b, c] + more)
    ensures [b, c] + more == [b] + ([c] + more)
  {
  }

  /** Three lines of replies, assembled. */
  lemma Assemble3(x1: string, x2: string, x3: string, rest2: seq<string>, rest3: seq<string>)
    requires rest3 == [AgentLine(x3)] && rest2 == [AgentLine(x2)] + rest3
    ensures [AgentLine(x1)] + rest2 == [AgentLine(x1), AgentLine(x2), AgentLine(x3)]
  {
  }

  /** Four lines of replies, assembled. */
  lemma Assemble(x0: string, x1: string, x2: string, x3: string, rest: seq<string>)
    requires rest == [AgentLine(x1), AgentLine(x2), AgentLine(x3)]
    ensures [AgentLine(x0)] + rest == [AgentLine(x0), AgentLine(x1), AgentLine(x2), AgentLine(x3)]
  {
  }

  /**
   * The answer loop of a conversation awaiting the age, given the three
   * answers: three lines, the last the completion message, the record
   * secured, and the agent's row holding the three answers.
   */
  lemma SimulatedAnswers(st: Stores, leadId: string, name: string, age: string, country: string, interest: string,
                         more: seq<string>, lead: SimLead, now: int)
    requires AgentProperties.AwaitingAnswer(st, leadId, map["name" := name], 0)
    requires age != "" && country != "" && interest != ""
    ensures var c := Converse(st, lead, leadId, [age, country, interest] + more, now);
            && c.lines == [AgentLine(Catalog[1].text), AgentLine(Catalog[2].text), AgentLine(CompletionMessage)]
            && c.lead.completed && c.lead.status == Secured
            && |c.lead.responses| == |lead.responses| + (if more == [] then 3 else 4)
            && leadId in c.stores.leads
            && c.stores.leads[leadId] == Lead(name, Some(age), Some(country), Some(interest), Secured, now)
            && !Present(c.stores.sessions, leadId)
  {
    var last := if more == [] then "" else more[0];
    AgentProperties.MiddleAnswers(st, leadId, name, age, country, interest, now, now, now, last, now);
    var r2 := Respond(st, leadId, age, now);
    var r3 := Respond(r2.stores, leadId, country, now);
    var r4 := Respond(r3.stores, leadId, interest, now);
    assert Catalog[1] in Catalog && Catalog[2] in Catalog;
    SimulatedAnswer(st, leadId, age, [country, interest] + more, lead, now, r2, Catalog[1]);
    var l2 := Recorded(lead, age, r2.reply, now);
    SimulatedAnswer(r2.stores, leadId, country, [interest] + more, l2, now, r3, Catalog[2]);
    var l3 := Recorded(l2, country, r3.reply, now);
    SimulatedLastAnswer(r3.stores, leadId, interest, more, l3, now, r4);
    Unconsed(age, country, interest, more);
    var c3 := Converse(r3.stores, l3, leadId, [interest] + more, now);
    var c2 := Converse(r2.stores, l2, leadId, [country] + ([interest] + more), now);
    assert c2 == Continue([AgentLine(Catalog[2].text)], c3);
    Assemble3(Catalog[1].text, Catalog[2].text, CompletionMessage, c2.lines, c3.lines);
  }

  /**
   * A simulated conversation of a freshly triggered lead that answers the
   * three questions: the simulator keeps the three questions and the
   * completion message, its record is secured, and the agent's row holds
   * the three answers with the lead secured; answers beyond the third get
   * no reply, and the loop stops at the first of them.
   */
  lemma SimulatedConversation(st: Stores, leadId: string, name: string, age: string, country: string, interest: string,
                              more: seq<string>, now: int)
    requires AgentProperties.Consistent(st) && Triggerable(st, leadId, name)
    requires age != "" && country != "" && interest != ""
    ensures var c := Conversation(Triggered(st, leadId, name, now), NewSimLead(name, now), leadId,
                                  [age, country, interest] + more, now);
            && c.lines == [AgentLine(Catalog[0].text), AgentLine(Catalog[1].text),
                           AgentLine(Catalog[2].text), AgentLine(CompletionMessage)]
            && c.lead.completed && c.lead.status == Secured
            && |c.lead.responses| == (if more == [] then 4 else 5)
            && leadId in c.stores.leads
            && c.stores.leads[leadId] == Lead(name, Some(age), Some(country), Some(interest), Secured, now)
            && !Present(c.stores.sessions, leadId)
  {
    var s0 := Triggered(st, leadId, name, now);
    AgentProperties.Opening(st, leadId, name, now, now);
    var r1 := Respond(s0, leadId, "yes", now);
    var l0 := NewSimLead(name, now);
    assert Catalog[0] in Catalog;
    QuestionKeepsStatus(l0, "yes", r1.reply, now);
    var l1 := Recorded(l0, "yes", r1.reply, now);
    CatalogOrder(map["name" := name]);
    assert AgentProperties.AwaitingAnswer(r1.stores, leadId, map["name" := name], 0);
    var answers := [age, country, interest] + more;
    SimulatedAnswers(r1.stores, leadId, name, age, country, interest, more, l1, now);
    var c := Converse(r1.stores, l1, leadId, answers, now);
    var whole := Conversation(s0, l0, leadId, answers, now);
    assert whole == Continue([AgentLine(Catalog[0].text)], c);
    Assemble(Catalog[0].text, Catalog[1].text, Catalog[2].text, CompletionMessage, c.lines);
  }
}
