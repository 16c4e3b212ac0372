# Lead qualification agent, modelled in Dafny

This project models the core of a scripted lead-qualification agent. The agent greets a new
prospect, asks for consent, then asks a fixed catalog of three questions: age, country and the
product of interest. It records every answer in two places:
- a lead table, one row per lead, with the name, the three answers, a status (`pending`,
  `in_progress`, `secured`, `no_response`) and the time of the last update;
- a session store, one live conversation per lead.

A periodic tick reminds the prospects that consented and then went quiet for more than 24 hours.
A simulator drives the agent the way a prospect would, and keeps its own record of each lead.
The console's input validator is modelled as well.

The modules follow the source files:
- `Leads` (agent/data_handler.py): the lead table. `DataHandler` is a class whose map field its
  methods update.
- `Sessions` (agent/session_manager.py): the session store. `SessionManager` is a class over a
  map of sessions.
- `Agent` (agent/agent.py): the conversation state machine and the follow-up tick.
  - The pure functions `Triggered`, `Respond` and `FollowUpTargets` say what each operation does
    to both stores, as values.
  - The methods of `SalesAgent` do the same in place through the stores' methods, and are proved
    to agree with those functions.
  - What the agent prints goes to a ghost `outbox`.
- `AgentProperties`: what holds across calls.
  - A consistency invariant of the two stores that every operation keeps.
  - The steps of a conversation, and a whole conversation from trigger to completion.
  - The follow-up rules.
- `Simulation` (simulations/lead_simulator.py): the `LeadSimulator` class. `SimulatorProperties`
  states how the simulator reads the agent's replies.
- `TimeUtils` (simulations/time_utils.py) and `Utils` (agent/utils.py): clock helpers and lead
  ids.
- `Validation` (main.py, `validate_input`): the console's input checks.
- `Text`: the ASCII string operations these modules use.
- `Wrappers`: `Option`.

Time is a whole number of seconds, and each operation receives the current time as `now`. The
random UUID is a string argument.

A reminder does not remove the session: agent/agent.py:145 only refreshes its activity time
(`update_session(lead_id, {})`). So a reminded lead can still answer, and it is not reminded again
within the next 24 hours (`AgentProperties.NoRepeatReminder`).

## Model

| member | source | states |
|---|---|---|
| TimeUtils.TimeSince | simulations/time_utils.py:9-12 | the elapsed time added to the timestamp gives now; it is positive exactly when the timestamp is in the past |
| TimeUtils.IsOlderThan | simulations/time_utils.py:14-17 | older exactly when the timestamp lies strictly before now minus the threshold; a timestamp exactly that old is not older; with a non-negative threshold, one not in the past is never older |
| Utils.GenerateLeadId | agent/utils.py:5-15 | the id ends in the UUID; a non-empty prefix is followed by an underscore and then the UUID; without a prefix, or with an empty one, the id is the UUID |
| Utils.SimulateTimeAdvance | agent/utils.py:17-29 | the time since the starting time (now when none is given) is exactly the given number of hours |
| Utils.AdvancedClockAges | agent/utils.py:17-29 | after advancing the clock by h hours, a timestamp taken at the start is older than a threshold exactly when h exceeds it |
| Text.Strip | main.py:89-92 | with `str.isspace`'s whitespace (the separators 0x1C-0x1F among it) this is `str.strip`, and with the narrower set `int()` skips it is what `int()` drops: a slice of the input with only whitespace around it, and no whitespace at either end; empty exactly when the input is all whitespace; an input with no whitespace at either end is unchanged |
| Text.ContainsAt | simulations/lead_simulator.py:65-68 | `sub in s` holds exactly when `sub` occurs at some position of `s` |
| Leads.AfterAdd | agent/data_handler.py:21-44 | an add with a non-empty id and name and a new id inserts one pending row holding the name and no answers, updated now; otherwise the table is unchanged; existing rows are never overwritten |
| Leads.AfterUpdate | agent/data_handler.py:46-64 | a failed update changes nothing; a successful one rewrites only that row: each named column takes its value, the other cells keep theirs, and the timestamp is now; no row is added or removed |
| Leads.AppliedStep | agent/data_handler.py:56-58 | writing one more column is the same as applying the larger update at once, so the order of the loop does not matter |
| Leads.UnknownKeysIgnored | agent/data_handler.py:56-58 | update keys that are not columns of the table have no effect |
| Leads.Lookup | agent/data_handler.py:66-77 | a row is found exactly for a non-empty stored id, and it is the stored row |
| Leads.TwoAddsTwoRows | agent/data_handler.py:21-44 | two adds of distinct new ids give a table of two rows, each with its own name |
| Leads.DataHandler.constructor | agent/data_handler.py:7-19 | the table starts empty |
| Leads.DataHandler.AddLead | agent/data_handler.py:21-44 | returns whether the add is allowed, and leaves the table as `AfterAdd` describes |
| Leads.DataHandler.UpdateLead | agent/data_handler.py:46-64 | the column loop applies every update (its invariant is `Applied` over the columns done so far); returns success and leaves the table as `AfterUpdate` describes |
| Leads.DataHandler.GetLead | agent/data_handler.py:66-77 | returns the `Lookup` of the id |
| Leads.DataHandler.GetAllLeads | agent/data_handler.py:79-82 | returns every stored row under its id |
| Sessions.FirstUnanswered | agent/session_manager.py:66-75 | the position of a question whose key is unanswered while every earlier key is answered; none exactly when every key is answered |
| Sessions.AfterCreate | agent/session_manager.py:16-33 | a new session starts in state `initial` with the given answers, no outstanding question, not completed, active now and with the catalog; an empty or existing id changes nothing; other sessions are kept |
| Sessions.AfterUpdateSession | agent/session_manager.py:43-54 | for a known id, the fields the update names are replaced, the others kept, and the activity time is now; the empty update only refreshes the time; an unknown id changes nothing; other sessions are untouched |
| Sessions.NextQuestion | agent/session_manager.py:56-75 | a missing or completed session asks nothing and changes nothing; otherwise the question asked is unanswered, follows only answered ones, and becomes the outstanding question; with everything answered the session is marked completed and its question cleared |
| Sessions.AfterRecordAnswer | agent/session_manager.py:77-88 | stores the answer under its key and refreshes the time; the other answers, the state, the outstanding question, the completion flag, the catalog and the other sessions are unchanged; a failed record changes nothing |
| Sessions.Inactive | agent/session_manager.py:90-101 | exactly the sessions older than the threshold by the time simulator's measure, not completed and past consent, each with its contents |
| Sessions.AfterEnd | agent/session_manager.py:103-112 | removes the session of a known id and nothing else; afterwards the id has no session |
| Sessions.CatalogOrder | agent/session_manager.py:10-14 | on the catalog, the next question is age, then country, then interest, whatever else the answers hold |
| Sessions.SessionManager.constructor | agent/session_manager.py:7-14 | the store starts empty |
| Sessions.SessionManager.CreateSession | agent/session_manager.py:16-33 | returns whether the create is allowed, and leaves the store as `AfterCreate` describes |
| Sessions.SessionManager.GetSession | agent/session_manager.py:35-41 | returns the session exactly for a non-empty stored id |
| Sessions.SessionManager.UpdateSession | agent/session_manager.py:43-54 | returns whether the id is known, and leaves the store as `AfterUpdateSession` describes |
| Sessions.SessionManager.GetNextQuestion | agent/session_manager.py:56-75 | the scanning loop returns the question, and leaves the store, as `NextQuestion` describes |
| Sessions.SessionManager.RecordAnswer | agent/session_manager.py:77-88 | returns success and leaves the store as `AfterRecordAnswer` describes |
| Sessions.SessionManager.CheckInactiveSessions | agent/session_manager.py:90-101 | returns `Inactive` of the store |
| Sessions.SessionManager.EndSession | agent/session_manager.py:103-112 | returns whether the id had a session, and leaves the store as `AfterEnd` describes |
| Validation.ValidateInput | main.py:76-97 | an unknown input type is accepted with an empty message; an age is valid exactly when `int` reads the text (at most 4300 digits) as an integer from 18 to 120, and its message is the number message exactly when `int` refuses the text; a valid name is non-empty; a valid country has at least two characters |
| Validation.EmailBodySplits | main.py:77-79 | the email matcher accepts exactly the strings that split into a word-or-dot-or-dash part, `@`, a word-or-dot-or-dash part, a dot, and word characters to the end |
| Validation.EmailBodyHasSplit | main.py:77-79 | an accepted email splits as the pattern says |
| Validation.EmailSplitAccepted | main.py:77-79 | every split of the pattern is accepted |
| Validation.PhoneBodyPrefixes | main.py:80-82 | the phone matcher accepts exactly 9 to 15 digits after an optional `+` and an optional `1` |
| Validation.TrailingNewlineIgnored | main.py:77-82 | for email and phone, one final line feed gets the verdict of the text without it, as Python's `$` does |
| Validation.ParseIntNumeral | main.py:84-85 | `int(s)` is n exactly when `s`, stripped of the spaces, tabs and line breaks around it (`int` does not skip the separators 0x1C-0x1F), is a non-empty run of at most 4300 ASCII digits worth n (leading zeros count toward the limit), or `+` before such a run worth n, or `-` before one worth -n |
| Validation.ParseSignedNumeral | main.py:84-85 | the sign-and-digits reader accepts exactly those integer literals, with their value |
| Validation.LeadingZeros | main.py:84-85 | zeros in front of a run of digits do not change its value |
| Validation.StripAround | main.py:84-85 | for either whitespace set, a text with non-whitespace ends, between runs of whitespace of that set, strips to itself |
| Validation.AgeAmongSpaces | main.py:83-86 | spaces, tabs and line breaks around the number (a final line feed among them), a `+` sign and leading zeros leave the age verdict that of the number (valid exactly from 18 to 120, with the range message) as long as zeros and digits number at most 4300; beyond that the text gets the number message |
| Validation.AgeTooLong | main.py:83-88 | a run of more than 4300 digits is not read by `int`, whatever its value, so the age is rejected with the number message |
| Validation.ParseRendered | main.py:84-85 | `int` reads the decimal text of n back as n when it has at most 4300 digits, and refuses it beyond |
| Validation.AgeOfNumber | main.py:83-88 | the decimal text of an integer of at most 4300 digits is a valid age exactly from 18 to 120, with the range message either way; a longer one gets the number message |
| Validation.AgeAfterSeparator | main.py:83-88 | digits behind one of the separators 0x1C-0x1F are not a number to `int`, so the age is rejected with the number message |
| Validation.SeparatorFirst | main.py:84-85 | `int` refuses a text that opens with one of the separators 0x1C-0x1F and ends in a digit: the separator is not stripped |
| Validation.AgeWithoutDigits | main.py:83-88 | an age text without a digit is rejected with the number message |
| Validation.NoDigitsNoNumber | main.py:84-88 | `int` refuses a text without a single digit |
| Validation.NameVisible | main.py:89-90 | a name is valid exactly when it has a character that is not whitespace |
| Validation.CountryVisible | main.py:91-92 | a country is valid exactly when it has two characters that are not whitespace |
| Validation.BudgetChoices | main.py:93-94 | the budget answer is valid exactly when it is one of A, B or C, in either case |
| Validation.TimelineChoices | main.py:95-96 | the timeline answer is valid exactly when it is one of A, B, C or D, in either case |
| Agent.Triggered | agent/agent.py:46-66 | a trigger with a non-empty id and name and a new lead adds the lead and creates a session holding the name; any other trigger changes nothing |
| Agent.FollowUpTargets | agent/agent.py:130-136 | the reminded leads are exactly the idle ones whose lead is stored and in progress |
| Agent.TickStep | agent/agent.py:134-145 | examining one more idle id keeps the tick's invariant: a due id is appended once to the listing of reminded leads, gets its line and is touched; any other id is left alone |
| Agent.ListedLines | agent/agent.py:134-145 | the lines of a listing that names each reminded lead once: as many lines as leads, each addressed to one of them, and every one of them reminded |
| Agent.TouchedStep | agent/agent.py:145 | touching one more reminded lead is one more `update_session(lead_id, {})` |
| Agent.SalesAgent.constructor | agent/agent.py:9-14 | both stores start empty, and nothing has been printed |
| Agent.SalesAgent.TriggerAgent | agent/agent.py:46-66 | returns whether the trigger is allowed; leaves the stores as `Triggered` says; prints the greeting, or the duplicate notice for a known lead |
| Agent.SalesAgent.HandleResponse | agent/agent.py:68-89 | the reply and the new stores are those of `Respond` |
| Agent.SalesAgent.HandleInitialResponse | agent/agent.py:91-104 | the reply and the new stores are those of the consent step, `RespondInitial` |
| Agent.SalesAgent.HandleQuestionResponse | agent/agent.py:106-128 | the reply and the new stores are those of the answer step, `RespondToQuestion` |
| Agent.SalesAgent.CheckForFollowUps | agent/agent.py:130-145 | the lead table is unchanged; exactly the leads of `FollowUpTargets` are touched; every one of those leads gets its reminder line; as many lines are printed as there are such leads, and each is addressed to one of them; the printed lines are, in order, the reminders to a listing of those leads that names each exactly once |
| Agent.SalesAgent.Remind | agent/agent.py:142-145 | prints the reminder line for the lead, and its session is touched as `update_session(lead_id, {})` does |
| Agent.SalesAgent.RemindIfDue | agent/agent.py:135-145 | one id of the scan: it is reminded and touched exactly when its lead is in progress |
| AgentProperties.EmptyConsistent | agent/agent.py:9-11 | the empty stores the agent starts with are consistent |
| AgentProperties.TriggerKeepsConsistent | agent/agent.py:46-66 | a trigger keeps the stores consistent |
| AgentProperties.ConsentStep | agent/agent.py:94-99 | consent moves the session to `questioning` and the lead to `in_progress`, and asks the age question, which becomes the outstanding one; answers are kept and consistency holds |
| AgentProperties.ConsentedConsistent | agent/agent.py:94-99 | the consenting session and its lead are consistent again |
| AgentProperties.DeclineStep | agent/agent.py:100-103 | anything but consent marks the lead `no_response`, removes the session and replies with the decline message |
| AgentProperties.QuestionsAreNotCompletion | agent/session_manager.py:10-14 | no question of the catalog reads like the completion message |
| AgentProperties.AnswerAdvances | agent/session_manager.py:66-75 | answering the first open question keeps the answers in catalog order and leaves a later question open, or none after the interest one |
| AgentProperties.AnsweredLead | agent/agent.py:117-120 | the answered cell takes the answer; the lead becomes `secured` exactly for the interest answer; the other cells are kept |
| AgentProperties.AnsweredSession | agent/agent.py:114-127 | the answer is recorded under the outstanding key; then the next unanswered question becomes outstanding, or the session is completed |
| AgentProperties.AnswerStep | agent/agent.py:106-128 | an answer goes to the outstanding, unanswered question, in both stores; the lead is secured exactly for the interest question; the next question is asked, or the completion message ends the session |
| AgentProperties.AnswerFrame | agent/agent.py:106-128 | an answer leaves the other sessions and leads unchanged, and the answered session keeps its catalog and stays open |
| AgentProperties.AnsweredConsistent | agent/agent.py:106-125 | a session moving on to its next question is consistent with its lead |
| AgentProperties.AnswerKeepsConsistent | agent/agent.py:106-128 | an answer keeps the stores consistent |
| AgentProperties.RespondKeepsConsistent | agent/agent.py:68-128 | `handle_response` keeps the stores consistent, whatever the response |
| AgentProperties.TouchKeepsConsistent | agent/agent.py:145 | the follow-up touch keeps the stores consistent |
| AgentProperties.IgnoredResponses | agent/agent.py:70-79 | an empty id or response, an unknown lead, a lead without a session, or a question state with no outstanding question gets no reply and changes nothing |
| AgentProperties.CompletingAnswer | agent/agent.py:118-128 | only the answer to the interest question gets the completion message; it secures the lead and removes the session |
| AgentProperties.CompletionIsFinal | agent/agent.py:123-128 | after the completion message the lead is secured, its session is gone, and any later response gets no reply and changes nothing |
| AgentProperties.RemindedOnlyAfterConsent | agent/agent.py:130-136 | a reminded lead has consented and is in progress; on consistent stores the tick reminds exactly the idle sessions |
| AgentProperties.NoRepeatReminder | agent/agent.py:144-145 | a lead reminded at now is not reminded again by a tick within 24 hours, and a second tick at the same instant reminds nobody |
| AgentProperties.YesIsConsent | agent/agent.py:94 | "yes" is consent |
| AgentProperties.KelvinConsent | agent/agent.py:94 | `lower` maps the Kelvin sign U+212A to `k`, so "ok" and "OKAY" written with it are consent |
| AgentProperties.Opening | agent/agent.py:46-99 | a trigger followed by "yes" asks the age question of a session that holds only the name |
| AgentProperties.AnswerInOrder | agent/agent.py:106-125 | an answer that is not the last is stored in both stores, and the catalog's next question is asked |
| AgentProperties.SecuredRow | agent/agent.py:117-120 | the row that took the interest answer over name, age and country is the complete secured row |
| AgentProperties.LastAnswer | agent/agent.py:118-128 | the interest answer completes the conversation; the lead is secured with all three answers, the session is gone and later responses are ignored |
| AgentProperties.MiddleAnswers | agent/agent.py:106-128 | the age and country answers lead on to the country and interest questions, and then to the last answer |
| AgentProperties.FullConversation | agent/agent.py:46-128 | trigger, consent and three answers: the questions come in catalog order, the last reply is the completion message, and the lead is secured with the three answers |
| Simulation.Recorded | simulations/lead_simulator.py:56-70 | the exchange is appended; a reply with the securing marker closes the record as `secured`; one with only the declining marker closes it as `no_response`; any other reply keeps the status and flag |
| Simulation.ConverseStep | simulations/lead_simulator.py:97-103 | one more answer of the loop keeps the lines and the rest of the loop together, and a falsy reply ends it |
| Simulation.LeadSimulator.constructor | simulations/lead_simulator.py:10-17 | keeps the agent, and starts with no records |
| Simulation.LeadSimulator.CreateLead | simulations/lead_simulator.py:19-38 | the id is the given one, or a fresh UUID; a new pending record replaces any record with that id, and the agent is triggered |
| Simulation.LeadSimulator.SimulateResponse | simulations/lead_simulator.py:40-72 | for an unknown lead nothing happens; otherwise the agent responds as `Respond` says and the record is updated as `Recorded` says |
| Simulation.LeadSimulator.SimulateConversation | simulations/lead_simulator.py:74-105 | for an unknown lead nothing happens; otherwise the lines, the stores and the record are those of `Conversation` |
| Simulation.LeadSimulator.AnswerLoop | simulations/lead_simulator.py:97-103 | the loop gives the lines, the stores and the record of `Converse` |
| Simulation.LeadSimulator.GetLeadStatus | simulations/lead_simulator.py:116-127 | the status of a known lead, and none for an unknown one |
| SimulatorProperties.RecordedKeepsSettled | simulations/lead_simulator.py:64-70 | recording an exchange keeps a record's status and completion flag in step |
| SimulatorProperties.NewSimLeadSettled | simulations/lead_simulator.py:30-36 | a new record is pending and not completed |
| SimulatorProperties.CompletionCarriesMarker | agent/agent.py:128 | the completion message contains the securing marker |
| SimulatorProperties.DeclineCarriesMarker | agent/agent.py:103 | the decline message contains the declining marker and not the securing one |
| SimulatorProperties.CompletionSecures | simulations/lead_simulator.py:65-67 | the completion message closes the record as `secured` |
| SimulatorProperties.DeclineCloses | simulations/lead_simulator.py:68-70 | the decline message closes the record as `no_response` |
| SimulatorProperties.QuestionKeepsStatus | simulations/lead_simulator.py:64-70 | a question of the catalog leaves the record's status and flag alone |
| SimulatorProperties.QuestionIsNeitherMessage | agent/session_manager.py:10-14 | no question of the catalog is the completion or the decline message |
| SimulatorProperties.AgentReplies | agent/agent.py:68-128 | on consistent stores, the agent replies with a catalog question, the decline message, the completion message, or nothing |
| SimulatorProperties.ReadingFollowsAgent | simulations/lead_simulator.py:64-70 | the simulator secures its record exactly when the agent secured the lead, and closes it as unresponsive exactly when the agent did; any other reply leaves the status alone |
| SimulatorProperties.ConverseLength | simulations/lead_simulator.py:97-103 | the answers are sent in order until the first falsy reply: one line per truthy reply, each exchange recorded after the earlier ones |
| SimulatorProperties.ConversationLength | simulations/lead_simulator.py:86-105 | a conversation keeps at most one line per message sent, and records the opening plus at most one exchange per answer |
| SimulatorProperties.SimulatedAnswer | simulations/lead_simulator.py:97-101 | an answer met by a catalog question is kept as a line, leaves the status alone, and the loop goes on |
| SimulatorProperties.SimulatedLastAnswer | simulations/lead_simulator.py:97-103 | an answer met by the completion message secures the record, and the loop stops at the next answer, which gets no reply |
| SimulatorProperties.SimulatedAnswers | simulations/lead_simulator.py:97-103 | three answers to a lead awaiting the age give the two later questions and the completion message, a secured record, and a secured row with the three answers |
| SimulatorProperties.SimulatedConversation | simulations/lead_simulator.py:74-105 | a newly triggered lead that answers three questions gives the three questions and the completion message; both the simulator's record and the agent's row end secured |

## Left out

- Threads and the lock: `start`, `stop` and the follow-up monitor thread (agent/agent.py:16-44), and the session store's lock. Every operation is one atomic step, and the tick is a method that the caller invokes.
- The interval and the sleep between ticks, and the delay between simulated responses: these are timing only.
- CSV persistence, pandas and `_read_data`/`_write_data`. The lead table is an in-memory map that starts empty. A pre-existing file's rows are not modelled.
- Lead cells hold text or nothing. pandas' column types (NaN, numbers read back from the file) are not modelled.
- `Leads.DataHandler.UpdateLead`: an update that writes the `lead_id` column (re-keying the row) is not modelled. Such a write is ignored like an unknown key.
- `datetime.now()`, `pd.Timestamp.now()` and `TimeSimulator.get_current_time` are the parameter `now`. An operation that reads the clock several times gets one `now`.
- The UUID of `generate_lead_id` is a string parameter.
- `print` output is the agent's ghost `outbox`. The console UI of main.py (everything but `validate_input`) is left out.
- `simulate_no_response` only prints, so it is not modelled.
- `Agent.SalesAgent.CheckForFollowUps`: the lines are the reminders to the targets, one per target, in the order of some listing of them. The listing's order is the iteration order of the inactive-session dict, which the model leaves open.
- `Sessions.AfterUpdateSession`: an update names only the five session fields (`state`, `data`, `current_question`, `completed`, `questions`). `update_session` merges any dict, but every caller passes only these keys.
- `Agent.IsConsent`: `lower` folds the ASCII capitals and the Kelvin sign U+212A, and keeps every other character. Python lower-cases other non-ASCII letters too, but none of them to a string of ASCII characters alone, so the consent decision is the same; other non-ASCII lower-case mappings are not modelled.
- `Validation.ValidateInput`: character classes are ASCII only.
  - `\w`, `\d`, `str.isspace`, `str.strip` and `str.upper` are not Unicode-aware.
  - `int()` accepts no underscores and no non-ASCII digits.
  - `int()`'s digit limit is the default 4300 (`MaxStrDigits`). A limit changed through `sys.set_int_max_str_digits`, and Python versions without a limit, are not modelled.
- Session states are strings, as in the source. The model does not restrict them beyond what the code checks.
- Long message texts are written as concatenations of pieces with the same value.
