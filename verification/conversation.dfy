/** `sales_conversation`: one reply of one lead moves that lead's record
    through consent, age, country and interest, writing the table as it goes. */
module Conversation {
  import opened Records
  import opened Text
  import opened Classifier
  import opened LeadTable

  /** `lead_states` together with `leads.csv`. */
  datatype Store = Store(leads: map<string, Lead>, file: File)

  /** One call's outcome: the new store, the returned string, and whether the
      call armed a follow-up timer for the lead. */
  datatype Turn = Turn(store: Store, reply: string, armsFollowUp: bool)

  /** The reply for an unrecognised consent answer (and for the opener). */
  const AwaitingConsent: string := "Awaiting consent"

  function AgePrompt(name: string): string {
    "What is your age, " + name + "?"
  }

  function CountryPrompt(name: string): string {
    "Which country are you from, " + name + "?"
  }

  function InterestPrompt(name: string): string {
    "What product or service are you interested in, " + name + "?"
  }

  /** The record made on first sight of a lead. */
  function NewLead(name: string, now: int): Lead {
    Lead(name, Pending, Consent, now, None, None, None)
  }

  /** The record `lead_states.setdefault` hands back. */
  function Current(s: Store, id: string, name: string, now: int): Lead {
    if id in s.leads then s.leads[id] else NewLead(name, now)
  }

  /** The table write made on every call before anything else: the current
      in-memory status, no answers. */
  function Checkpoint(s: Store, id: string, name: string, now: int): File
    requires WellFormed(Contents(s.file))
  {
    UpdateLeadInCsv(s.file, id, name, None, None, None, Current(s, id, name, now).status.Name())
  }

  /** Every lead the program has seen has exactly one row in the file. */
  predicate Mirrored(s: Store) {
    && WellFormed(Contents(s.file))
    && |Contents(s.file)| >= 1
    && UniqueIds(Contents(s.file))
    && s.leads.Keys <= Ids(Contents(s.file))
  }

  /** The store at import time: no leads, and the file as `initialize_csv`
      leaves it. */
  function Start(f: File): (s: Store)
    requires WellFormed(Contents(f)) && |Contents(f)| >= 1 && UniqueIds(Contents(f))
    ensures Mirrored(s)
    ensures f.Missing? ==> s.file == Present([Header])
  {
    Store(map[], InitializeCsv(f, false).value)
  }

  /** A table write a transition asks for after the checkpoint. */
  datatype Write = Write(age: Option<string>, country: Option<string>, interest: Option<string>, status: string)

  /** What the step logic decides for one lead: its new record, the reply,
      whether a follow-up timer is armed, and the table write, if any. */
  datatype Transition = Transition(lead: Lead, reply: string, armsFollowUp: bool, write: Option<Write>)

  /** The branches of `sales_conversation` after the checkpoint, applied to
      the lead's record and the interpreted reply. */
  function Advance(lead: Lead, processed: string, name: string, now: int): (t: Transition)
    ensures t.lead.name == lead.name
    ensures t.write.Some? ==>
      || t.write.value.status == t.lead.status.Name()
      || (t.write.value.status == "pending" && t.lead.status == FollowedUp)
  {
    if lead.status.Terminal() then
      Transition(lead, lead.status.Name(), false, None)
    else
      match lead.step
      case Consent =>
        if processed == "start" then
          Transition(lead, AwaitingConsent, false, None)
        else if processed == "yes" then
          Transition(lead.(step := Age, lastInteraction := now), AgePrompt(name), true,
                     Some(Write(None, None, None, DefaultStatus)))
        else if processed == "invalid" then
          Transition(lead, AwaitingConsent, false, None)
        else
          Transition(lead.(status := NoResponse, lastInteraction := now), NoResponse.Name(), false,
                     Some(Write(None, None, None, NoResponse.Name())))
      case Age =>
        Transition(lead.(age := Some(processed), step := Country, lastInteraction := now),
                   CountryPrompt(name), false,
                   Some(Write(Some(processed), None, None, DefaultStatus)))
      case Country =>
        Transition(lead.(country := Some(processed), step := Interest, lastInteraction := now),
                   InterestPrompt(name), false,
                   Some(Write(lead.age, Some(processed), None, DefaultStatus)))
      case Interest =>
        Transition(lead.(interest := Some(processed), status := Secured, lastInteraction := now),
                   Secured.Name(), false,
                   Some(Write(lead.age, lead.country, Some(processed), Secured.Name())))
  }

  /** Apply a transition's write, if any, to the file. */
  function Apply(f: File, id: string, name: string, w: Option<Write>): (r: File)
    requires WellFormed(Contents(f))
    ensures WellFormed(Contents(r))
    ensures w.None? ==> r == f
  {
    match w
    case None => f
    case Some(w) => UpdateLeadInCsv(f, id, name, w.age, w.country, w.interest, w.status)
  }

  function SalesConversation(s: Store, id: string, name: string, response: string, now: int): (r: Turn)
    requires WellFormed(Contents(s.file))
    ensures r.store.file.Present? && WellFormed(Contents(r.store.file))
    ensures r.store.leads.Keys == s.leads.Keys + {id}
    ensures forall k :: k in s.leads && k != id ==> r.store.leads[k] == s.leads[k]
    ensures r.store.leads[id].name == if id in s.leads then s.leads[id].name else name
  {
    var lead := Current(s, id, name, now);
    var file := Checkpoint(s, id, name, now);
    var t := Advance(lead, ProcessResponse(response, lead.step), name, now);
    Turn(Store(s.leads[id := t.lead], Apply(file, id, name, t.write)), t.reply, t.armsFollowUp)
  }

  /** A first reply behaves as creating the pending consent-step record
      under the caller's name and then handling the reply for it. */
  lemma FirstContactCreates(s: Store, id: string, name: string, response: string, now: int)
    requires WellFormed(Contents(s.file)) && id !in s.leads
    ensures SalesConversation(s, id, name, response, now)
         == SalesConversation(s.(leads := s.leads[id := NewLead(name, now)]), id, name, response, now)
  {
    var s' := s.(leads := s.leads[id := NewLead(name, now)]);
    var lead := Current(s, id, name, now);
    assert Current(s', id, name, now) == lead;
    assert Checkpoint(s', id, name, now) == Checkpoint(s, id, name, now);
    var t := Advance(lead, ProcessResponse(response, lead.step), name, now);
    assert s'.leads[id := t.lead] == s.leads[id := t.lead];
    var c := Checkpoint(s, id, name, now);
    assert SalesConversation(s, id, name, response, now)
        == Turn(Store(s.leads[id := t.lead], Apply(c, id, name, t.write)), t.reply, t.armsFollowUp);
    assert SalesConversation(s', id, name, response, now)
        == Turn(Store(s'.leads[id := t.lead], Apply(c, id, name, t.write)), t.reply, t.armsFollowUp);
  }

  /** A lead with a terminal status absorbs every reply: the call returns the
      status, leaves the records alone, arms nothing, and its only table
      effect is the checkpoint write of that same status. */
  lemma TerminalAbsorbs(s: Store, id: string, name: string, response: string, now: int)
    requires WellFormed(Contents(s.file)) && id in s.leads && s.leads[id].status.Terminal()
    ensures var r := SalesConversation(s, id, name, response, now);
      && r.reply == s.leads[id].status.Name()
      && r.store.leads == s.leads
      && !r.armsFollowUp
      && r.store.file == UpdateLeadInCsv(s.file, id, name, None, None, None, s.leads[id].status.Name())
  {
    assert s.leads[id := s.leads[id]] == s.leads;
  }

  /** The three outcomes at the consent step. */
  lemma ConsentOutcomes(s: Store, id: string, name: string, response: string, now: int)
    requires WellFormed(Contents(s.file))
    requires var lead := Current(s, id, name, now); !lead.status.Terminal() && lead.step == Consent
    ensures var lead := Current(s, id, name, now);
      var r := SalesConversation(s, id, name, response, now);
      var c := ProcessResponse(response, Consent);
      && (c == "invalid" ==>
            && r.reply == AwaitingConsent && r.store.leads[id] == lead && !r.armsFollowUp
            && r.store.file == Checkpoint(s, id, name, now))
      && (c == "yes" ==>
            && r.reply == AgePrompt(name) && r.armsFollowUp
            && r.store.leads[id] == lead.(step := Age, lastInteraction := now)
            && r.store.leads[id].status == lead.status)
      && (c == "no" ==>
            && r.reply == "no_response" && !r.armsFollowUp
            && r.store.leads[id] == lead.(status := NoResponse, lastInteraction := now)
            && r.store.leads[id].step == Consent)
  {
  }

  /** Answers at the age, country and interest steps: the normalised reply is
      stored, the step advances (or, after interest, the lead is secured),
      and the next prompt is returned. */
  lemma AnswerOutcomes(s: Store, id: string, name: string, response: string, now: int)
    requires WellFormed(Contents(s.file))
    requires var lead := Current(s, id, name, now); !lead.status.Terminal() && lead.step != Consent
    ensures var lead := Current(s, id, name, now);
      var r := SalesConversation(s, id, name, response, now);
      var answer := Normalize(response);
      && !r.armsFollowUp
      && (lead.step == Age ==>
            && r.reply == CountryPrompt(name)
            && r.store.leads[id] == lead.(age := Some(answer), step := Country, lastInteraction := now))
      && (lead.step == Country ==>
            && r.reply == InterestPrompt(name)
            && r.store.leads[id] == lead.(country := Some(answer), step := Interest, lastInteraction := now))
      && (lead.step == Interest ==>
            && r.reply == "secured"
            && r.store.leads[id] == lead.(interest := Some(answer), status := Secured, lastInteraction := now))
  {
    AnswerIsNormalized(response, Current(s, id, name, now).step);
  }

  /** What an answer leaves in the lead's table row, given a row for every
      recorded lead beforehand: the answered column holds the normalised reply (unless it
      is empty, when the old value stays), the columns answered earlier are
      rewritten from the record, the name is the caller's, and the status
      column says `pending` after the age and country answers, whatever the
      in-memory status, and `secured` after the interest answer. */
  lemma AnswerRow(s: Store, id: string, name: string, response: string, now: int)
    requires WellFormed(Contents(s.file)) && |Contents(s.file)| >= 1 && s.leads.Keys <= Ids(Contents(s.file))
    requires var lead := Current(s, id, name, now); !lead.status.Terminal() && lead.step != Consent
    ensures var lead := Current(s, id, name, now);
      var before := RowFor(Contents(s.file), id);
      var after := RowFor(Contents(SalesConversation(s, id, name, response, now).store.file), id);
      var a := Some(Normalize(response));
      && before.Some? && after.Some?
      && (lead.step == Age ==>
            after.value == [id, name, Or(a, before.value[2]), before.value[3], before.value[4], "pending"])
      && (lead.step == Country ==>
            after.value == [id, name, Or(lead.age, before.value[2]), Or(a, before.value[3]), before.value[4],
                            "pending"])
      && (lead.step == Interest ==>
            after.value == [id, name, Or(lead.age, before.value[2]), Or(lead.country, before.value[3]),
                            Or(a, before.value[4]), "secured"])
  {
    var lead := s.leads[id];
    var t0 := Contents(s.file);
    assert id in Ids(t0);
    var i :| 1 <= i < |t0| && t0[i][0] == id;
    assert FindLead(t0, id).Some?;
    var p := RowFor(t0, id).value;
    var a := Normalize(response);
    AnswerIsNormalized(response, lead.step);
    var r := SalesConversation(s, id, name, response, now);
    var t := Advance(lead, a, name, now);
    assert r.store.file == Apply(Checkpoint(s, id, name, now), id, name, t.write);
    var w := t.write.value;
    CheckpointThenWrite(s.file, id, name, lead.status.Name(), w.age, w.country, w.interest, w.status);
    match lead.step
    case Age =>
      assert w == Write(Some(a), None, None, "pending");
    case Country =>
      assert w == Write(lead.age, Some(a), None, "pending");
    case Interest =>
      assert w == Write(lead.age, lead.country, Some(a), "secured");
  }

  /** The checkpoint write followed by a second write of the same lead: the
      row is the lead's earlier row with the second write's merge applied. */
  lemma CheckpointThenWrite(f: File, id: string, name: string, status: string, age: Option<string>,
                            country: Option<string>, interest: Option<string>, status': string)
    requires WellFormed(Contents(f)) && |Contents(f)| >= 1 && RowFor(Contents(f), id).Some?
    ensures var p := RowFor(Contents(f), id).value;
      var c := UpdateLeadInCsv(f, id, name, None, None, None, status);
      RowFor(Contents(UpdateLeadInCsv(c, id, name, age, country, interest, status')), id)
        == Some([id, name, Or(age, p[2]), Or(country, p[3]), Or(interest, p[4]), status'])
  {
    var p := RowFor(Contents(f), id).value;
    var c := UpdateLeadInCsv(f, id, name, None, None, None, status);
    UpdateRowFor(f, id, name, None, None, None, status);
    UpdateRowFor(c, id, name, age, country, interest, status');
  }

  /** An unrecognised consent reply, such as the opener "start", can be
      repeated at will: the second call changes nothing the first did not. */
  lemma InvalidConsentIdempotent(s: Store, id: string, name: string, response: string, now: int, later: int)
    requires WellFormed(Contents(s.file)) && |Contents(s.file)| >= 1
    requires var lead := Current(s, id, name, now); !lead.status.Terminal() && lead.step == Consent
    requires ProcessResponse(response, Consent) == "invalid"
    ensures var r := SalesConversation(s, id, name, response, now);
      var r' := SalesConversation(r.store, id, name, response, later);
      r'.store == r.store && r'.reply == r.reply == AwaitingConsent
  {
    var lead := Current(s, id, name, now);
    var r := SalesConversation(s, id, name, response, now);
    assert r.store.leads[id] == lead;
    assert Current(r.store, id, name, later) == lead;
    assert r.store.leads[id := lead] == r.store.leads;
    UpsertIdempotent(Contents(s.file), id, name, None, None, None, lead.status.Name());
  }

  /** The opener is idempotent in particular. */
  lemma StartIdempotent(s: Store, id: string, name: string, now: int, later: int)
    requires WellFormed(Contents(s.file)) && |Contents(s.file)| >= 1
    requires var lead := Current(s, id, name, now); !lead.status.Terminal() && lead.step == Consent
    ensures var r := SalesConversation(s, id, name, "start", now);
      var r' := SalesConversation(r.store, id, name, "start", later);
      r'.store == r.store && r'.reply == r.reply == AwaitingConsent
  {
    StartIsInvalid();
    InvalidConsentIdempotent(s, id, name, "start", now, later);
  }

  /** The step never moves backward, and moves at most one place forward. */
  lemma StepMonotone(s: Store, id: string, name: string, response: string, now: int)
    requires WellFormed(Contents(s.file))
    ensures var before := Current(s, id, name, now).step;
      var after := SalesConversation(s, id, name, response, now).store.leads[id].step;
      after == before || after.Rank() == before.Rank() + 1
  {
  }

  /** Every call keeps each lead's single row in the file and gives the lead
      it handled one; that row then holds the caller's name and a status
      that is the in-memory status, except that a followed-up lead answering
      the age or country question is written as `pending`. */
  lemma ConversationMirrors(s: Store, id: string, name: string, response: string, now: int)
    requires Mirrored(s)
    ensures var r := SalesConversation(s, id, name, response, now);
      var lead := r.store.leads[id];
      var row := RowFor(Contents(r.store.file), id);
      && Mirrored(r.store)
      && row.Some? && row.value[1] == name
      && (row.value[5] == lead.status.Name() || (row.value[5] == "pending" && lead.status == FollowedUp))
      && forall k :: k != id ==> RowFor(Contents(r.store.file), k) == RowFor(Contents(s.file), k)
  {
    var lead := Current(s, id, name, now);
    var file := Checkpoint(s, id, name, now);
    var t := Advance(lead, ProcessResponse(response, lead.step), name, now);
    UpdateLeadInCsvMirrors(s.file, id, name, None, None, None, lead.status.Name());
    if t.write.Some? {
      var w := t.write.value;
      UpdateLeadInCsvMirrors(file, id, name, w.age, w.country, w.interest, w.status);
    }
  }

  /** A reply at a time together with the arrival time. */
  datatype Message = Message(response: string, time: int)

  /** The replies of one lead handled in order. */
  function Run(s: Store, id: string, name: string, msgs: seq<Message>): (r: Store)
    requires WellFormed(Contents(s.file))
    ensures WellFormed(Contents(r.file))
    ensures r.leads.Keys == s.leads.Keys + (if msgs == [] then {} else {id})
    decreases |msgs|
  {
    if msgs == [] then s
    else Run(SalesConversation(s, id, name, msgs[0].response, msgs[0].time).store, id, name, msgs[1..])
  }

  /** Over any sequence of replies the lead's step never moves backward and
      its stored name never changes. */
  lemma {:induction false} RunStepMonotone(s: Store, id: string, name: string, msgs: seq<Message>)
    requires WellFormed(Contents(s.file)) && id in s.leads
    ensures var r := Run(s, id, name, msgs);
      && id in r.leads
      && s.leads[id].step.Rank() <= r.leads[id].step.Rank()
      && r.leads[id].name == s.leads[id].name
    decreases |msgs|
  {
    if msgs != [] {
      var t := SalesConversation(s, id, name, msgs[0].response, msgs[0].time).store;
      StepMonotone(s, id, name, msgs[0].response, msgs[0].time);
      RunStepMonotone(t, id, name, msgs[1..]);
    }
  }

  /** Once terminal, a lead's record stays as it is, whatever follows. */
  lemma {:induction false} RunTerminalAbsorbs(s: Store, id: string, name: string, msgs: seq<Message>)
    requires WellFormed(Contents(s.file)) && id in s.leads && s.leads[id].status.Terminal()
    ensures Run(s, id, name, msgs).leads == s.leads
    decreases |msgs|
  {
    if msgs != [] {
      TerminalAbsorbs(s, id, name, msgs[0].response, msgs[0].time);
      RunTerminalAbsorbs(SalesConversation(s, id, name, msgs[0].response, msgs[0].time).store, id, name, msgs[1..]);
    }
  }

  /** After any sequence of replies every lead seen has exactly one row. */
  lemma {:induction false} RunMirrors(s: Store, id: string, name: string, msgs: seq<Message>)
    requires Mirrored(s)
    ensures Mirrored(Run(s, id, name, msgs))
    decreases |msgs|
  {
    if msgs != [] {
      ConversationMirrors(s, id, name, msgs[0].response, msgs[0].time);
      RunMirrors(SalesConversation(s, id, name, msgs[0].response, msgs[0].time).store, id, name, msgs[1..]);
    }
  }
}
