/** `follow_up_check` with its timer taken out: what one firing of the
    follow-up timer does to a lead, and whether it asks to be fired again. */
module FollowUp {
  import opened Records
  import opened LeadTable
  import opened Conversation

  /** The idle interval, ten seconds, in microseconds. */
  const Delay: int := 10_000_000

  /** The status afterwards (`None` for a lead the program does not know),
      whether the table is written, and whether a new timer is started. */
  datatype Decision = Decision(status: Option<Status>, write: bool, reschedule: bool)

  predicate IsTerminal(status: Option<Status>) {
    status.Some? && status.value.Terminal()
  }

  /** The decision of one firing, from the lead's status and the time since
      its last interaction. */
  function Decide(status: Option<Status>, elapsed: int): (d: Decision)
    ensures d.write <==> elapsed > Delay && !IsTerminal(status)
    ensures d.write ==> d.status == Some(FollowedUp)
    ensures !d.write ==> d.status == status
    ensures d.reschedule <==> !IsTerminal(status)
  {
    var write := elapsed > Delay && !IsTerminal(status);
    var after := if write then Some(FollowedUp) else status;
    Decision(after, write, !IsTerminal(after))
  }

  /** A second firing at the same moment decides the same status. */
  lemma DecideIdempotent(status: Option<Status>, elapsed: int)
    ensures Decide(Decide(status, elapsed).status, elapsed).status == Decide(status, elapsed).status
  {
  }

  /** One firing's effect on the store, and whether it reschedules itself. */
  datatype Check = Check(store: Store, reschedule: bool)

  function FollowUpCheck(s: Store, id: string, now: int): (r: Check)
    requires WellFormed(Contents(s.file))
    ensures WellFormed(Contents(r.store.file))
    ensures r.store.leads.Keys == s.leads.Keys
    ensures forall k :: k in s.leads && k != id ==> r.store.leads[k] == s.leads[k]
    ensures id in s.leads ==>
      r.store.leads[id] == s.leads[id] || r.store.leads[id] == s.leads[id].(status := FollowedUp)
  {
    if id !in s.leads then
      // The record read is a fresh empty one whose last interaction is "now".
      Check(s, Decide(None, 0).reschedule)
    else
      var lead := s.leads[id];
      var d := Decide(Some(lead.status), now - lead.lastInteraction);
      if d.write then
        Check(Store(s.leads[id := lead.(status := FollowedUp)],
                    UpdateLeadInCsv(s.file, id, lead.name, lead.age, lead.country, lead.interest,
                                    FollowedUp.Name())),
              d.reschedule)
      else
        Check(s, d.reschedule)
  }

  /** The timer keeps re-arming exactly while the lead is not secured and
      has not declined; for such a lead the firing changes nothing. A lead
      the program does not know reschedules for ever. */
  lemma FollowUpStopsAtTerminal(s: Store, id: string, now: int)
    requires WellFormed(Contents(s.file))
    ensures var r := FollowUpCheck(s, id, now);
      && (r.reschedule <==> id !in s.leads || !s.leads[id].status.Terminal())
      && (id !in s.leads || s.leads[id].status.Terminal() ==> r.store == s)
  {
  }

  /** A lead is marked followed-up exactly when it is known, not terminal,
      and idle for strictly more than the delay; a firing that races a fresh
      reply (idle for the delay or less) leaves everything as it was. When
      it is marked, its table row carries the stored name, the record's
      answers (the row's own value where the record has none or an empty
      one) and the status `followed_up`. */
  lemma FollowUpGuard(s: Store, id: string, now: int)
    requires Mirrored(s)
    ensures var r := FollowUpCheck(s, id, now);
      var marked := id in s.leads && !s.leads[id].status.Terminal()
                    && now - s.leads[id].lastInteraction > Delay;
      && (marked ==> r.store.leads[id] == s.leads[id].(status := FollowedUp))
      && (marked ==> RowFor(Contents(r.store.file), id).value[5] == "followed_up")
      && (marked ==>
            var lead := s.leads[id];
            var p := RowFor(Contents(s.file), id).value;
            RowFor(Contents(r.store.file), id)
              == Some([id, lead.name, Or(lead.age, p[2]), Or(lead.country, p[3]), Or(lead.interest, p[4]),
                       "followed_up"]))
      && (!marked ==> r.store == s)
      && Mirrored(r.store)
  {
    if id in s.leads {
      var lead := s.leads[id];
      UpdateLeadInCsvMirrors(s.file, id, lead.name, lead.age, lead.country, lead.interest, FollowedUp.Name());
      var t0 := Contents(s.file);
      assert id in Ids(t0);
      var i :| 1 <= i < |t0| && t0[i][0] == id;
      assert FindLead(t0, id).Some?;
      UpdateRowFor(s.file, id, lead.name, lead.age, lead.country, lead.interest, FollowedUp.Name());
    }
  }

  /** Firing twice at the same moment has the effect of firing once. */
  lemma FollowUpIdempotent(s: Store, id: string, now: int)
    requires WellFormed(Contents(s.file)) && |Contents(s.file)| >= 1
    ensures var r := FollowUpCheck(s, id, now);
      FollowUpCheck(r.store, id, now) == r
  {
    var r := FollowUpCheck(s, id, now);
    if id in s.leads && r.store != s {
      var lead := s.leads[id];
      var lead' := lead.(status := FollowedUp);
      assert r.store.leads[id] == lead';
      assert r.store.leads[id := lead'.(status := FollowedUp)] == r.store.leads;
      UpsertIdempotent(Contents(s.file), id, lead.name, lead.age, lead.country, lead.interest, FollowedUp.Name());
    }
  }
}
