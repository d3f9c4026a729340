/** The leads `simulate_leads.py` drives (Alice answers everything, Bob
    declines, Charlie consents and goes quiet), replayed step by step
    against the model from a freshly initialised file. Times are in
    microseconds; the lead id and display name are left arbitrary. Each
    step names the store it starts from, so the steps chain.

    The replies and stores enter each lemma as parameters pinned by a
    `requires` (`requires yes == "yes"`) rather than as literals in the
    goal: with a literal, the verifier keeps unfolding the recursive text
    functions (`Contains`, `Normalize`) on it and runs out of resources. */
module Scenarios {
  import opened Records
  import opened Text
  import opened Classifier
  import opened LeadTable
  import opened Conversation
  import opened FollowUp

  /** The opener "start" creates the pending record and its row and only
      awaits consent. */
  lemma OpenerAwaitsConsent(s: Store, id: string, name: string, start: string)
    requires s == Start(Missing) && start == "start"
    ensures var r := SalesConversation(s, id, name, start, 0);
      && r.reply == "Awaiting consent" && !r.armsFollowUp
      && r.store.leads == map[id := Lead(name, Pending, Consent, 0, None, None, None)]
      && r.store.file == Present([Header, [id, name, "", "", "", "pending"]])
  {
    StartIsInvalid();
    ConsentOutcomes(s, id, name, start, 0);
  }

  /** "yes" moves to the age question, keeps the status, arms a follow-up. */
  lemma Consents(s: Store, id: string, name: string, yes: string)
    requires s.leads == map[id := Lead(name, Pending, Consent, 0, None, None, None)]
    requires s.file == Present([Header, [id, name, "", "", "", "pending"]])
    requires yes == "yes"
    ensures var r := SalesConversation(s, id, name, yes, 2_000_000);
      && r.reply == "What is your age, " + name + "?" && r.armsFollowUp
      && r.store.leads == map[id := Lead(name, Pending, Age, 2_000_000, None, None, None)]
      && r.store.file == Present([Header, [id, name, "", "", "", "pending"]])
  {
    YesIsYes(yes);
    ConsentOutcomes(s, id, name, yes, 2_000_000);
  }

  lemma AliceGivesAge(s: Store, id: string, name: string, age: string)
    requires s.leads == map[id := Lead(name, Pending, Age, 2_000_000, None, None, None)]
    requires s.file == Present([Header, [id, name, "", "", "", "pending"]])
    requires age == "30"
    ensures var r := SalesConversation(s, id, name, age, 4_000_000);
      && r.reply == "Which country are you from, " + name + "?"
      && r.store.leads == map[id := Lead(name, Pending, Country, 4_000_000, Some("30"), None, None)]
      && r.store.file == Present([Header, [id, name, "30", "", "", "pending"]])
  {
    NormalizeOfNormal(age);
    AnswerOutcomes(s, id, name, age, 4_000_000);
  }

  /** The country is stored lower-cased. */
  lemma AliceGivesCountry(s: Store, id: string, name: string, country: string)
    requires s.leads == map[id := Lead(name, Pending, Country, 4_000_000, Some("30"), None, None)]
    requires s.file == Present([Header, [id, name, "30", "", "", "pending"]])
    requires country == "USA"
    ensures var r := SalesConversation(s, id, name, country, 6_000_000);
      && r.reply == "What product or service are you interested in, " + name + "?"
      && r.store.leads == map[id := Lead(name, Pending, Interest, 6_000_000, Some("30"), Some("usa"), None)]
      && r.store.file == Present([Header, [id, name, "30", "usa", "", "pending"]])
  {
    NormalizeOfTrimmed(country);
    assert Lower(country) == "usa";
    AnswerOutcomes(s, id, name, country, 6_000_000);
  }

  /** The interest answer secures the lead; its row holds every answer. */
  lemma AliceIsSecured(s: Store, id: string, name: string, interest: string)
    requires s.leads == map[id := Lead(name, Pending, Interest, 6_000_000, Some("30"), Some("usa"), None)]
    requires s.file == Present([Header, [id, name, "30", "usa", "", "pending"]])
    requires interest == "Software"
    ensures var r := SalesConversation(s, id, name, interest, 8_000_000);
      && r.reply == "secured"
      && r.store.leads == map[id := Lead(name, Secured, Interest, 8_000_000, Some("30"), Some("usa"), Some("software"))]
      && r.store.file == Present([Header, [id, name, "30", "usa", "software", "secured"]])
  {
    NormalizeOfTrimmed(interest);
    assert Lower(interest) == "software";
    AnswerOutcomes(s, id, name, interest, 8_000_000);
  }

  /** "no" ends the conversation at the consent step. */
  lemma BobDeclines(s: Store, id: string, name: string, no: string)
    requires s.leads == map[id := Lead(name, Pending, Consent, 0, None, None, None)]
    requires s.file == Present([Header, [id, name, "", "", "", "pending"]])
    requires no == "no"
    ensures var r := SalesConversation(s, id, name, no, 2_000_000);
      && r.reply == "no_response" && !r.armsFollowUp
      && r.store.leads == map[id := Lead(name, NoResponse, Consent, 2_000_000, None, None, None)]
      && r.store.file == Present([Header, [id, name, "", "", "", "no_response"]])
  {
    NoIsNo(no);
    ConsentOutcomes(s, id, name, no, 2_000_000);
  }

  /** A timer firing for a lead that declined does nothing and stops. */
  lemma BobFollowUpStops(s: Store, id: string, name: string, now: int)
    requires s.leads == map[id := Lead(name, NoResponse, Consent, 2_000_000, None, None, None)]
    requires s.file == Present([Header, [id, name, "", "", "", "no_response"]])
    ensures var r := FollowUpCheck(s, id, now);
      r.store == s && !r.reschedule
  {
    FollowUpStopsAtTerminal(s, id, now);
  }

  /** Charlie consented at 2 s and then went quiet: the firing just past
      12 s marks him followed-up and re-arms; a firing at exactly 12 s does
      not mark him yet, but re-arms as well. */
  lemma CharlieFollowedUp(s: Store, id: string, name: string)
    requires s.leads == map[id := Lead(name, Pending, Age, 2_000_000, None, None, None)]
    requires s.file == Present([Header, [id, name, "", "", "", "pending"]])
    ensures var r := FollowUpCheck(s, id, 12_000_000);
      r.store == s && r.reschedule
    ensures var r := FollowUpCheck(s, id, 12_000_001);
      && r.reschedule
      && r.store.leads == map[id := Lead(name, FollowedUp, Age, 2_000_000, None, None, None)]
      && r.store.file == Present([Header, [id, name, "", "", "", "followed_up"]])
  {
    assert Contents(s.file)[1][0] == id;
    assert Mirrored(s);
    FollowUpGuard(s, id, 12_000_000);
    FollowUpGuard(s, id, 12_000_001);
    FollowUpStopsAtTerminal(s, id, 12_000_001);
  }

  /** A followed-up lead answering the age question stays followed-up in
      memory while its row is written back as `pending`. */
  lemma FollowedUpAnswerWritesPending(s: Store, id: string, name: string, age: string)
    requires s.leads == map[id := Lead(name, FollowedUp, Age, 2_000_000, None, None, None)]
    requires s.file == Present([Header, [id, name, "", "", "", "followed_up"]])
    requires age == "41"
    ensures var r := SalesConversation(s, id, name, age, 20_000_000);
      && r.store.leads[id].status == FollowedUp
      && r.store.file == Present([Header, [id, name, "41", "", "", "pending"]])
  {
    NormalizeOfNormal(age);
    AnswerOutcomes(s, id, name, age, 20_000_000);
  }

  /** A consent reply with both an affirmative and a negative keyword
      proceeds to the age question. */
  lemma MixedConsentProceeds(s: Store, id: string, name: string, reply: string)
    requires s.leads == map[id := Lead(name, Pending, Consent, 0, None, None, None)]
    requires s.file == Present([Header, [id, name, "", "", "", "pending"]])
    requires reply == "Yeah, not interested"
    ensures var r := SalesConversation(s, id, name, reply, 2_000_000);
      && r.reply == "What is your age, " + name + "?"
      && r.store.leads[id].step == Age
  {
    MixedReplyIsYes();
    ConsentOutcomes(s, id, name, reply, 2_000_000);
  }
}
