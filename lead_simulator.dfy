/**
 * The lead simulator (simulations/lead_simulator.py): a test driver that
 * keeps its own per-lead record (status, completion flag, the exchanges so
 * far) while talking to a `SalesAgent`. It reads the agent's replies to
 * decide when a lead is done: a reply containing "Thank you for providing"
 * secures it, one containing "no problem" closes it as unresponsive.
 */
module Simulation {

  import opened Wrappers
  import opened Text
  import opened Leads
  import opened Sessions
  import opened Agent
  import Utils

  /** One exchange: when, what the lead said and what the agent answered. */
  datatype Interaction = Interaction(time: int, leadSaid: string, agentSaid: Option<string>)

  /** The simulator's own record of a lead. */
  datatype SimLead = SimLead(
    name: string,
    status: string,
    responses: seq<Interaction>,
    createdAt: int,
    completed: bool)

  const SecuredMarker: string := "Thank you for providing"
  const DeclinedMarker: string := "no problem"

  /** The record `create_lead` stores. */
  function NewSimLead(name: string, now: int): SimLead
  {
    SimLead(name, Pending, [], now, false)
  }

  /** Python's truth value of the agent's reply: present and non-empty. */
  predicate Truthy(reply: Option<string>)
  {
    reply.Some? && reply.value != ""
  }

  /** The id `create_lead` uses: the given one unless it is missing or empty, else a fresh UUID. */
  function ChosenId(leadId: Option<string>, uuid: string): string
  {
    if leadId.Some? && leadId.value != "" then leadId.value else Utils.GenerateLeadId(None, uuid)
  }

  /**
   * The record after one `simulate_response`: the exchange is appended, and
   * a reply carrying one of the two markers closes the lead with the
   * matching status (the securing marker wins); any other reply leaves
   * status and flag as they were.
   */
  function Recorded(lead: SimLead, said: string, reply: Option<string>, now: int): (after: SimLead)
    ensures after.responses == lead.responses + [Interaction(now, said, reply)]
    ensures after.name == lead.name && after.createdAt == lead.createdAt
    ensures Truthy(reply) && Contains(reply.value, SecuredMarker) ==> after.completed && after.status == Secured
    ensures Truthy(reply) && !Contains(reply.value, SecuredMarker) && Contains(reply.value, DeclinedMarker) ==>
              after.completed && after.status == NoResponse
    ensures !(Truthy(reply) && (Contains(reply.value, SecuredMarker) || Contains(reply.value, DeclinedMarker))) ==>
              after.completed == lead.completed && after.status == lead.status
  {
    var logged := lead.(responses := lead.responses + [Interaction(now, said, reply)]);
    if Truthy(reply) && Contains(reply.value, SecuredMarker) then logged.(completed := true, status := Secured)
    else if Truthy(reply) && Contains(reply.value, DeclinedMarker) then logged.(completed := true, status := NoResponse)
    else logged
  }

  /** A record is settled exactly when it is closed with one of the two final statuses. */
  predicate Settled(lead: SimLead)
  {
    (lead.status == Pending || lead.status == Secured || lead.status == NoResponse)
    && (lead.completed <==> lead.status != Pending)
  }

  /** The line `simulate_conversation` keeps for a reply. */
  function AgentLine(reply: string): string
  {
    "Agent: " + reply
  }

  /** The agent's stores and the simulator's record of one lead, as the conversation goes on. */
  datatype Exchange = Exchange(stores: Stores, lead: SimLead, lines: seq<string>)

  /**
   * The answer loop of `simulate_conversation`: each answer is sent and
   * recorded; a truthy reply is kept as a line and the loop goes on, the
   * first falsy reply stops it.
   */
  function Converse(stores: Stores, lead: SimLead, leadId: string, answers: seq<string>, now: int): (r: Exchange)
    decreases |answers|
  {
    if answers == [] then Exchange(stores, lead, [])
    else
      var turn := Respond(stores, leadId, answers[0], now);
      var recorded := Recorded(lead, answers[0], turn.reply, now);
      if Truthy(turn.reply) then
        var rest := Converse(turn.stores, recorded, leadId, answers[1..], now);
        Exchange(rest.stores, rest.lead, [AgentLine(turn.reply.value)] + rest.lines)
      else
        Exchange(turn.stores, recorded, [])
  }

  /** The lines so far, followed by what the rest of the loop adds. */
  function Continue(lines: seq<string>, rest: Exchange): Exchange
  {
    Exchange(rest.stores, rest.lead, lines + rest.lines)
  }

  /** A whole `simulate_conversation` of a known lead: "yes" first, its reply kept when truthy, then the answer loop. */
  function Conversation(stores: Stores, lead: SimLead, leadId: string, answers: seq<string>, now: int): Exchange
  {
    var opening := Respond(stores, leadId, "yes", now);
    var first := Recorded(lead, "yes", opening.reply, now);
    Continue(if Truthy(opening.reply) then [AgentLine(opening.reply.value)] else [],
             Converse(opening.stores, first, leadId, answers, now))
  }

  /**
   * One more answer of the loop: when the lines so far followed by the rest
   * of the loop give `target`, they still do after the answer is sent; when
   * its reply is falsy the loop ends there.
   */
  lemma ConverseStep(lines: seq<string>, stores: Stores, lead: SimLead, leadId: string, answers: seq<string>, i: nat,
                     now: int, turn: Turn, recorded: SimLead, target: Exchange)
    requires i < |answers|
    requires Continue(lines, Converse(stores, lead, leadId, answers[i..], now)) == target
    requires turn == Respond(stores, leadId, answers[i], now)
    requires recorded == Recorded(lead, answers[i], turn.reply, now)
    ensures Truthy(turn.reply) ==>
              Continue(lines + [AgentLine(turn.reply.value)], Converse(turn.stores, recorded, leadId, answers[i + 1..], now)) == target
    ensures !Truthy(turn.reply) ==> Exchange(turn.stores, recorded, lines) == target
  {
    assert answers[i..][0] == answers[i];
    assert answers[i..][1..] == answers[i + 1..];
    if Truthy(turn.reply) {
      var rest := Converse(turn.stores, recorded, leadId, answers[i + 1..], now);
      assert lines + ([AgentLine(turn.reply.value)] + rest.lines) == lines + [AgentLine(turn.reply.value)] + rest.lines;
    } else {
      assert lines + [] == lines;
    }
  }

  /** `LeadSimulator`: the agent it drives and its records, keyed by lead id. */
  class LeadSimulator {

    const agent: SalesAgent
    var leads: map<string, SimLead>

    constructor (agent: SalesAgent)
      ensures this.agent == agent && leads == map[]
    {
      this.agent := agent;
      leads := map[];
    }

    /** `create_lead`: records the lead (replacing any record of that id) and triggers the agent. */
    method CreateLead(name: string, leadId: Option<string>, uuid: string, now: int) returns (id: string)
      modifies this, agent, agent.dataHandler, agent.sessionManager
      ensures id == ChosenId(leadId, uuid)
      ensures leads == old(leads)[id := NewSimLead(name, now)]
      ensures agent.State() == Triggered(old(agent.State()), id, name, now)
      ensures agent.outbox == old(agent.outbox) + TriggerLog(old(agent.State()), id, name)
    {
      id := if leadId.Some? && leadId.value != "" then leadId.value else Utils.GenerateLeadId(None, uuid);
      leads := leads[id := NewSimLead(name, now)];
      var _ := agent.TriggerAgent(id, name, now);
    }

    /** `simulate_response`: forwards the response of a known lead to the agent and records the exchange. */
    method SimulateResponse(leadId: string, response: string, now: int) returns (reply: Option<string>)
      modifies this, agent.dataHandler, agent.sessionManager
      ensures leadId !in old(leads) ==>
                reply.None? && leads == old(leads) && agent.State() == old(agent.State())
      ensures leadId in old(leads) ==>
                && Turn(agent.State(), reply) == Respond(old(agent.State()), leadId, response, now)
                && leads == old(leads)[leadId := Recorded(old(leads)[leadId], response, reply, now)]
    {
      if leadId !in leads {
        return None;
      }
      reply := agent.HandleResponse(leadId, response, now);
      var lead := leads[leadId];
      lead := lead.(responses := lead.responses + [Interaction(now, response, reply)]);
      if reply.Some? && reply.value != "" && Contains(reply.value, SecuredMarker) {
        lead := lead.(completed := true, status := Secured);
      } else if reply.Some? && reply.value != "" && Contains(reply.value, DeclinedMarker) {
        lead := lead.(completed := true, status := NoResponse);
      }
      leads := leads[leadId := lead];
    }

    /**
     * `simulate_conversation`: "yes" first, its reply kept when truthy, then
     * the answers in order until the first falsy reply.
     */
    method SimulateConversation(leadId: string, answers: seq<string>, now: int) returns (conversation: seq<string>)
      modifies this, agent.dataHandler, agent.sessionManager
      ensures leadId !in old(leads) ==>
                conversation == [] && leads == old(leads) && agent.State() == old(agent.State())
      ensures leadId in old(leads) ==>
                var whole := Conversation(old(agent.State()), old(leads)[leadId], leadId, answers, now);
                conversation == whole.lines && agent.State() == whole.stores && leads == old(leads)[leadId := whole.lead]
    {
      if leadId !in leads {
        return [];
      }
      conversation := [];
      var initialReply := SimulateResponse(leadId, "yes", now);
      if initialReply.Some? && initialReply.value != "" {
        conversation := conversation + [AgentLine(initialReply.value)];
      }
      ghost var afterYes := agent.State();
      ghost var first := leads[leadId];
      ghost var lines := conversation;
      ghost var whole := Conversation(old(agent.State()), old(leads)[leadId], leadId, answers, now);
      ghost var rest := Converse(afterYes, first, leadId, answers, now);
      assert whole == Continue(lines, rest);
      assert old(leads)[leadId := whole.lead] == leads[leadId := rest.lead];
      conversation := AnswerLoop(leadId, answers, now, conversation);
      assert conversation == whole.lines;
      assert agent.State() == whole.stores;
    }

    /** The `for answer in answers` loop of `simulate_conversation`, after the lines in `lines`. */
    method AnswerLoop(leadId: string, answers: seq<string>, now: int, lines: seq<string>) returns (conversation: seq<string>)
      requires leadId in leads
      modifies this, agent.dataHandler, agent.sessionManager
      ensures var rest := Converse(old(agent.State()), old(leads)[leadId], leadId, answers, now);
              conversation == lines + rest.lines && agent.State() == rest.stores && leads == old(leads)[leadId := rest.lead]
    {
      conversation := lines;
      ghost var target := Continue(lines, Converse(agent.State(), leads[leadId], leadId, answers, now));
      assert answers[0..] == answers;
      var i := 0;
      while i < |answers|
        invariant 0 <= i <= |answers|
        invariant leadId in leads && leads == old(leads)[leadId := leads[leadId]]
        invariant Continue(conversation, Converse(agent.State(), leads[leadId], leadId, answers[i..], now)) == target
        decreases |answers| - i
      {
        ghost var before := agent.State();
        ghost var lead := leads[leadId];
        var reply := SimulateResponse(leadId, answers[i], now);
        assert leads[leadId] == Recorded(lead, answers[i], reply, now);
        ConverseStep(conversation, before, lead, leadId, answers, i, now, Turn(agent.State(), reply), leads[leadId], target);
        if reply.Some? && reply.value != "" {
          conversation := conversation + [AgentLine(reply.value)];
        } else {
          break;
        }
        assert Continue(conversation, Converse(agent.State(), leads[leadId], leadId, answers[i + 1..], now)) == target;
        i := i + 1;
        assert leads == old(leads)[leadId := leads[leadId]];
      }
      if i == |answers| {
        assert answers[i..] == [];
      }
    }

    /** `get_lead_status` */
    function GetLeadStatus(leadId: string): (status: Option<string>)
      reads this
      ensures status.Some? <==> leadId in leads
      ensures status.Some? ==> status.value == leads[leadId].status
    {
      if leadId in leads then Some(leads[leadId].status) else None
    }
  }
}
