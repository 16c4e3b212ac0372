/**
 * The lead table (agent/data_handler.py). The source keeps it in a CSV file
 * with the columns lead_id, name, age, country, interest, status and
 * last_updated; here it is an in-memory map from lead id to row, and an
 * empty cell (NaN in the source) is `None`.
 */
module Leads {

  import opened Wrappers

  const Pending: string := "pending"
  const InProgress: string := "in_progress"
  const Secured: string := "secured"
  const NoResponse: string := "no_response"

  /** The columns of the table. */
  const Columns: set<string> := {"lead_id", "name", "age", "country", "interest", "status", "last_updated"}

  /** One row of the table, without its key. */
  datatype Lead = Lead(
    name: string,
    age: Option<string>,
    country: Option<string>,
    interest: Option<string>,
    status: string,
    lastUpdated: int)

  /** The row `add_lead` appends: the name, no answers yet, status pending. */
  function NewLead(name: string, now: int): Lead
  {
    Lead(name, None, None, None, Pending, now)
  }

  /** The text cell `column` of a row; `None` for an empty cell or a column that is not a text cell. */
  function Cell(lead: Lead, column: string): Option<string>
  {
    if column == "name" then Some(lead.name)
    else if column == "age" then lead.age
    else if column == "country" then lead.country
    else if column == "interest" then lead.interest
    else if column == "status" then Some(lead.status)
    else None
  }

  /**
   * One assignment `df.loc[row, column] = value` of `update_lead`'s loop.
   * Writing `last_updated` has no lasting effect, since `update_lead`
   * overwrites it right after the loop; writing `lead_id` (re-keying the row)
   * is not modelled; a key that is not a column is skipped.
   */
  function SetCell(lead: Lead, column: string, value: string): Lead
  {
    if column == "name" then lead.(name := value)
    else if column == "age" then lead.(age := Some(value))
    else if column == "country" then lead.(country := Some(value))
    else if column == "interest" then lead.(interest := Some(value))
    else if column == "status" then lead.(status := value)
    else lead
  }

  /**
   * The row after all of `updates` has been written into it, stated
   * column by column: a text column takes its value from `updates` when
   * `updates` names it, and keeps its value otherwise.
   */
  function Applied(lead: Lead, updates: map<string, string>): Lead
  {
    Lead(
      if "name" in updates then updates["name"] else lead.name,
      if "age" in updates then Some(updates["age"]) else lead.age,
      if "country" in updates then Some(updates["country"]) else lead.country,
      if "interest" in updates then Some(updates["interest"]) else lead.interest,
      if "status" in updates then updates["status"] else lead.status,
      lead.lastUpdated)
  }

  /** Writing one more column into a row is the same as applying the larger update at once. */
  lemma AppliedStep(lead: Lead, done: map<string, string>, column: string, value: string)
    requires column !in done
    ensures Applied(lead, done[column := value]) == SetCell(Applied(lead, done), column, value)
  {
  }

  /** `add_lead` succeeds: both arguments are non-empty and the id is new. */
  predicate Addable(leads: map<string, Lead>, leadId: string, name: string)
  {
    leadId != "" && name != "" && leadId !in leads
  }

  /**
   * The table after `add_lead`. A successful add inserts one new pending
   * row with the given name and no answers; a failed add changes nothing,
   * and in particular never overwrites an existing row.
   */
  function AfterAdd(leads: map<string, Lead>, leadId: string, name: string, now: int): (after: map<string, Lead>)
    ensures Addable(leads, leadId, name) ==>
              after.Keys == leads.Keys + {leadId}
              && after[leadId].name == name
              && after[leadId].status == Pending
              && after[leadId].age.None? && after[leadId].country.None? && after[leadId].interest.None?
              && after[leadId].lastUpdated == now
    ensures !Addable(leads, leadId, name) ==> after == leads
    ensures forall id :: id in leads ==> id in after && after[id] == leads[id]
  {
    if Addable(leads, leadId, name) then leads[leadId := NewLead(name, now)] else leads
  }

  /** `update_lead` succeeds: the id is non-empty, the update is not empty and the row exists. */
  predicate Updatable(leads: map<string, Lead>, leadId: string, updates: map<string, string>)
  {
    leadId != "" && updates != map[] && leadId in leads
  }

  /**
   * The table after `update_lead`. A failed update changes nothing. A
   * successful one rewrites only that row: every text column named in
   * `updates` takes the new value, every other column keeps its value, and
   * the timestamp is `now` whatever `updates` held. No row is added or
   * removed and no other row changes.
   */
  function AfterUpdate(leads: map<string, Lead>, leadId: string, updates: map<string, string>, now: int): (after: map<string, Lead>)
    ensures after.Keys == leads.Keys
    ensures !Updatable(leads, leadId, updates) ==> after == leads
    ensures forall id :: id in leads && id != leadId ==> after[id] == leads[id]
    ensures Updatable(leads, leadId, updates) ==>
              after[leadId].lastUpdated == now
              && (forall c :: c in updates && c in Columns && c != "lead_id" && c != "last_updated" ==>
                    Cell(after[leadId], c) == Some(updates[c]))
              && (forall c :: c !in updates ==> Cell(after[leadId], c) == Cell(leads[leadId], c))
  {
    if Updatable(leads, leadId, updates) then
      leads[leadId := Applied(leads[leadId], updates).(lastUpdated := now)]
    else
      leads
  }

  /** Keys of `updates` that are not columns are ignored. */
  lemma UnknownKeysIgnored(leads: map<string, Lead>, leadId: string, updates: map<string, string>, extra: map<string, string>, now: int)
    requires extra.Keys !! Columns && updates != map[]
    ensures AfterUpdate(leads, leadId, updates + extra, now) == AfterUpdate(leads, leadId, updates, now)
  {
    var merged := updates + extra;
    assert merged != map[] by {
      var c :| c in updates;
      assert c in merged;
    }
    if Updatable(leads, leadId, updates) {
      assert Applied(leads[leadId], merged) == Applied(leads[leadId], updates);
    }
  }

  /** `get_lead`: the row for a non-empty known id. */
  function Lookup(leads: map<string, Lead>, leadId: string): (found: Option<Lead>)
    ensures found.Some? <==> leadId != "" && leadId in leads
    ensures found.Some? ==> found.value == leads[leadId]
  {
    if leadId != "" && leadId in leads then Some(leads[leadId]) else None
  }

  /** `DataHandler`: the lead table, mutated in place by its operations. */
  class DataHandler {

    var leads: map<string, Lead>

    constructor ()
      ensures leads == map[]
    {
      leads := map[];
    }

    /** `add_lead` */
    method AddLead(leadId: string, name: string, now: int) returns (added: bool)
      modifies this
      ensures added == Addable(old(leads), leadId, name)
      ensures leads == AfterAdd(old(leads), leadId, name, now)
    {
      if leadId == "" || name == "" {
        return false;
      }
      if leadId in leads {
        return false;
      }
      leads := leads[leadId := NewLead(name, now)];
      added := true;
    }

    /** `update_lead`: writes the columns of `updates` one by one, then the timestamp. */
    method UpdateLead(leadId: string, updates: map<string, string>, now: int) returns (updated: bool)
      modifies this
      ensures updated == Updatable(old(leads), leadId, updates)
      ensures leads == AfterUpdate(old(leads), leadId, updates, now)
    {
      if leadId == "" || updates == map[] {
        return false;
      }
      if leadId !in leads {
        return false;
      }
      var original := leads[leadId];
      var row := original;
      var pending := updates.Keys;
      ghost var done: map<string, string> := map[];
      while pending != {}
        invariant leads == old(leads)
        invariant pending <= updates.Keys
        invariant done.Keys == updates.Keys - pending
        invariant forall c :: c in done ==> done[c] == updates[c]
        invariant row == Applied(original, done)
        decreases pending
      {
        var column :| column in pending;
        AppliedStep(original, done, column, updates[column]);
        row := SetCell(row, column, updates[column]);
        done := done[column := updates[column]];
        pending := pending - {column};
      }
      assert done == updates;
      leads := leads[leadId := row.(lastUpdated := now)];
      updated := true;
    }

    /** `get_lead` */
    method GetLead(leadId: string) returns (lead: Option<Lead>)
      ensures lead == Lookup(leads, leadId)
    {
      if leadId == "" {
        return None;
      }
      if leadId !in leads {
        return None;
      }
      lead := Some(leads[leadId]);
    }

    /** `get_all_leads`: every stored row, keyed by its id. */
    method GetAllLeads() returns (all: map<string, Lead>)
      ensures all.Keys == leads.Keys
      ensures forall id :: id in all ==> all[id] == leads[id]
    {
      all := leads;
    }
  }

  /** Two adds of distinct new ids leave two rows in the table listing. */
  lemma TwoAddsTwoRows(first: string, second: string, name1: string, name2: string, now: int)
    requires first != "" && second != "" && first != second && name1 != "" && name2 != ""
    ensures var table := AfterAdd(AfterAdd(map[], first, name1, now), second, name2, now);
            |table| == 2 && table[first].name == name1 && table[second].name == name2
  {
    var table := AfterAdd(AfterAdd(map[], first, name1, now), second, name2, now);
    assert table.Keys == {first, second};
  }
}
