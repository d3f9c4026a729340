# Sales agent lead conversation — a Dafny model

This project models the core of the `sales_agent` demo: a scripted sales chatbot
that walks a *lead* through a fixed sequence of questions (consent, then age,
country and interest), keeps each lead's record in memory (`lead_states`),
mirrors it into `leads.csv`, and re-arms a follow-up timer while the lead stays
quiet. Everything lives in `agent.py`. The model turns that file's logic into
pure functions with the clock and the file made explicit:

- `text.dfy` (`Text`): Python's `str.lower`, `str.strip` and `w in s` on ASCII
  text, with an independent characterisation of each (`Window`, `OccursAt`).
- `records.dfy` (`Records`): the lead record and its `Step` and `Status` enumerations.
- `classifier.dfy` (`Classifier`): `process_response_with_adk`.
- `lead_table.dfy` (`LeadTable`): `leads.csv` as a list of rows with row 0 the
  header; `initialize_csv`; `update_lead_in_csv` as the pure upsert `Upsert`;
  the missing-file path as written (`UpdateLeadInCsvAsWritten`) and corrected
  (`UpdateLeadInCsv`, used by the rest of the model).
- `conversation.dfy` (`Conversation`): `sales_conversation` as a function from a
  store (the record map plus the file) to a new store, a reply and a
  "timer armed" flag, plus `Run` over a sequence of replies.
- `follow_up.dfy` (`FollowUp`): the decision made by one firing of
  `follow_up_check`: mark the lead followed-up or not, write or not, and
  reschedule or not.
- `scenarios.dfy` (`Scenarios`): the Alice, Bob and Charlie scripts of
  `simulate_leads.py`, replayed step by step.

Time is an integer number of microseconds (the resolution of `datetime`). The
follow-up delay of ten seconds is `FollowUp.Delay = 10_000_000`. The idle check
is strict (`>`), as in the source.

Where the code and its documented design disagree, the model follows the code:

- Answers are stored lower-cased and trimmed. "USA" is stored as "usa"
  (`Scenarios.AliceGivesCountry`).
- The `'start'` branch at agent.py:106-108 is dead. At the consent step the
  classifier only returns `yes`, `no` or `invalid`, and "start" classifies as
  `invalid` (`Classifier.StartIsInvalid`). The reply is still "Awaiting
  consent", and repeating it is idempotent (`Conversation.StartIdempotent`).
- The single letters `y` and `n` are keywords. So any consent reply containing
  a `y` is affirmative, even "sorry, not interested"
  (`Classifier.ConsentClassification`).
- The table does not always mirror the in-memory status. The consent, age
  and country writes (agent.py:116, 134, 140) use the default status
  `pending`, even for a lead that is `followed_up` in memory
  (`Scenarios.FollowedUpAnswerWritesPending`).
- After a conversation call, the table's name column holds the name given to
  that call, while the in-memory name stays the one given at creation. A
  follow-up firing writes the stored name instead (agent.py:58, 63).
- A follow-up firing does not update `last_interaction`. So every later firing
  of an idle lead marks it `followed_up` again.

## Model

| member | source | states |
|---|---|---|
| `Text.Lower` | agent.py:73 | lower-casing has the input's length, leaves no upper-case letter, maps each upper-case letter 32 code points up (`A` to `a`) and leaves every other character alone |
| `Text.LeadingSpace` | agent.py:73 | the count of leading characters that `strip` removes: all of them are whitespace and the next one is not |
| `Text.Strip` | agent.py:73 | the stripped text neither starts nor ends with whitespace and is a window of the input outside which everything is whitespace |
| `Text.StripIsTheTrimmedWindow` | agent.py:73 | any trimmed window of the input whose outside is all whitespace equals `Strip` of it, so `Strip` is exactly that window |
| `Text.StripIdempotent` | agent.py:73 | stripping twice is stripping once |
| `Text.Normalize` | agent.py:73 | the normalised reply is lower case, trimmed, and a whitespace-bounded window of the lower-cased reply |
| `Text.NormalizeIdempotent` | agent.py:73 | normalising a normalised reply changes nothing |
| `Text.NormalizeOfTrimmed` | agent.py:73 | a reply without surrounding whitespace normalises to its lower case |
| `Text.ContainsIffOccurs` | agent.py:77-79 | the substring test `word in response` holds exactly when the word occurs at some index of the text |
| `Text.ContainsHasOccurrence` | agent.py:77-79 | a contained word occurs at some index (one direction, by induction) |
| `Text.ContainsLetter` | agent.py:75-79 | a one-letter keyword is contained exactly when the letter appears in the text |
| `Text.ContainsPrefix` | agent.py:75-79 | text containing a keyword contains each prefix of that keyword |
| `Classifier.ProcessResponse` | agent.py:72-83 | at the consent step the result is one of `yes`, `no`, `invalid`; at other steps it is the lower-cased, trimmed reply |
| `Classifier.PositiveKeywords` | agent.py:75-78 | the affirmative list (the helper `AnyIn` stands for `any(word in response ...)`) matches exactly the texts containing `y`, `ok` or `sure` |
| `Classifier.NegativeKeywords` | agent.py:76-80 | the negative list matches exactly the texts containing the letter `n` |
| `Classifier.ConsentClassification` | agent.py:74-82 | consent is `yes` if the normalised reply contains `y`, `ok` or `sure`, whatever else it contains; otherwise `no` if it contains `n`; otherwise `invalid`, the empty reply included |
| `Classifier.AnswerIsNormalized` | agent.py:73-83 | outside the consent step the interpreted reply is the normalised reply |
| `Classifier.StartIsInvalid` | agent.py:105-108 | "start" classifies as `invalid` at the consent step, so the branch testing for "start" is never taken |
| `Classifier.MixedReplyIsYes` | agent.py:77-80 | "Yeah, not interested" is affirmative: the positive list is checked first |
| `Classifier.YesIsYes` | simulate_leads.py:23 | the reply "yes" classifies as `yes` |
| `Classifier.NoIsNo` | simulate_leads.py:32 | the reply "no" classifies as `no` |
| `LeadTable.FindFrom` | agent.py:37-38 | the search returns the first data row at or after a position whose id column matches, or none when no such row exists |
| `LeadTable.FindLead` | agent.py:37-45 | the update targets the first data row (never the header) whose id matches, or none |
| `LeadTable.Upsert` | agent.py:29-49 | the header is kept; with a match, only that row changes (id kept, name and status overwritten, answers overwritten only by non-empty values) and the length is unchanged; without one, exactly `[id, name, age or '', country or '', interest or '', status]` is appended. The helpers `Or` (Python's `x or y`), `MergeRow` (agent.py:39-43) and `NewRow` (agent.py:49) build these rows |
| `LeadTable.FindLeadSameKeys` | agent.py:37-38 | tables with the same id column locate an id at the same row |
| `LeadTable.UpsertRowFor` | agent.py:37-49 | after an upsert the row for the id is the merged or the new row, and every other id's row is unchanged |
| `LeadTable.UpsertIds` | agent.py:48-49 | an upsert adds the id to the table's ids and removes none |
| `LeadTable.UpsertKeepsIdsUnique` | agent.py:37-49 | at most one data row per id is preserved, and the upserted id then has a row |
| `LeadTable.UpsertIdempotent` | agent.py:37-49 | repeating an upsert with the same arguments leaves the table as the first left it |
| `LeadTable.InitializeCsv` | agent.py:19-26 | creating the file writes the header alone when it is missing and leaves an existing file as it is; with the lock already held it never returns |
| `LeadTable.InitializeIdempotent` | agent.py:21-26 | initialising twice is initialising once |
| `LeadTable.UpdateLeadInCsvAsWritten` | agent.py:29-52 | the update as written returns exactly when the file exists, and then writes the upserted rows; on a missing file it blocks |
| `LeadTable.UpdateLeadInCsv` | agent.py:29-52 | the corrected update always leaves a file present with the header kept; on a missing file the result is the header followed by the new row |
| `LeadTable.UpdateCorrectionAgrees` | agent.py:46-49 | the corrected update equals the update as written on an existing file; on a missing file the one blocks while the other keeps the header |
| `LeadTable.UpdateRowFor` | agent.py:37-49 | the row the update leaves for the id is the lead's earlier row merged with the arguments, or the new row when it had none |
| `LeadTable.UpdateLeadInCsvMirrors` | agent.py:29-52 | the corrected update keeps ids unique, adds the id, writes the caller's name and the given status into its row, and leaves other leads' rows unchanged |
| `Conversation.Start` | agent.py:161-162 | at import time there are no leads and the initialised file satisfies the one-row-per-lead invariant |
| `Conversation.Advance` | agent.py:101-148 | the step logic never changes the lead's name, and any table write it asks for carries the resulting in-memory status, except that `pending` is written for a followed-up lead |
| `Conversation.SalesConversation` | agent.py:86-150 | a call adds the lead to the records if new, leaves every other lead's record unchanged, keeps the name given at creation, and leaves a well-formed file |
| `Conversation.FirstContactCreates` | agent.py:87-92 | a first reply behaves as creating the record (caller's name, `pending`, `consent`, now) and then handling the reply; the helper `Current` is the `setdefault` |
| `Conversation.TerminalAbsorbs` | agent.py:99-102 | a secured or declined lead gets its status back, its record is unchanged, no timer is armed, and the only write is the checkpoint of that status (the helper `Checkpoint`, agent.py:99) |
| `Conversation.ConsentOutcomes` | agent.py:105-127 | at consent, `invalid` returns "Awaiting consent" and changes nothing beyond the checkpoint; `yes` moves to `age`, keeps the status, arms a timer and returns the age prompt; `no` sets `no_response`, keeps the step at `consent` and returns "no_response" |
| `Conversation.AnswerOutcomes` | agent.py:130-148 | age and country answers are stored normalised and advance the step with the next prompt; the interest answer is stored, sets `secured`, keeps the step and returns "secured" |
| `Conversation.AnswerRow` | agent.py:130-146 | after an age or country answer the lead's row says `pending`, whatever the in-memory status, and after an interest answer `secured`; the answered column holds the normalised reply (the old value when it is empty), the earlier answers are rewritten from the record, and the name column holds the caller's name |
| `Conversation.CheckpointThenWrite` | agent.py:99-146 | a step's write after the checkpoint leaves the lead's earlier row with the step's answers merged in (non-empty ones only), the caller's name and the step's status |
| `Conversation.InvalidConsentIdempotent` | agent.py:119-121 | repeating an unrecognised consent reply leaves the store exactly as the first call left it |
| `Conversation.StartIdempotent` | agent.py:105-121 | repeating the opener "start" leaves the store unchanged and always answers "Awaiting consent" |
| `Conversation.StepMonotone` | agent.py:110-138 | one call leaves the step where it was or moves it exactly one place forward |
| `Conversation.ConversationMirrors` | agent.py:99-146 | every call keeps one row per lead seen, gives the handled lead a row with the caller's name and the in-memory status (or `pending` for a followed-up lead), and leaves other leads' rows unchanged |
| `Conversation.Run` | simulate_leads.py:23-26 | handling a sequence of replies records the lead exactly when there was a reply and keeps the file well formed |
| `Conversation.RunStepMonotone` | agent.py:86-148 | over any sequence of replies the step never moves backward and the stored name never changes |
| `Conversation.RunTerminalAbsorbs` | agent.py:99-102 | once a lead is terminal, no sequence of replies changes any record |
| `Conversation.RunMirrors` | agent.py:86-148 | after any sequence of replies every lead seen still has exactly one row |
| `FollowUp.Decide` | agent.py:59-65 | a firing writes `followed_up` exactly when more than the delay has passed and the lead is not terminal, and reschedules exactly when the lead was not terminal |
| `FollowUp.DecideIdempotent` | agent.py:59-65 | deciding again at the same moment yields the same status |
| `FollowUp.FollowUpCheck` | agent.py:55-68 | a firing touches no other lead and changes the lead's record at most by setting its status to `followed_up` |
| `FollowUp.FollowUpStopsAtTerminal` | agent.py:60-68 | the timer re-arms exactly while the lead is unknown or not terminal, and a firing for a terminal lead changes nothing |
| `FollowUp.FollowUpGuard` | agent.py:59-63 | a lead is marked followed-up (record and row) exactly when known, not terminal and idle strictly longer than the delay, its row then holding the stored name, the record's answers (the row's own where the record has none) and `followed_up`; otherwise nothing changes; one row per lead is kept |
| `FollowUp.FollowUpIdempotent` | agent.py:59-63 | two firings at the same moment have the effect of one |
| `Scenarios.OpenerAwaitsConsent` | simulate_leads.py:16 | the opener on a fresh file creates the pending record and its row and answers "Awaiting consent" |
| `Scenarios.Consents` | simulate_leads.py:23-26 | "yes" moves to the age question, answers "What is your age, {name}?" and arms a follow-up |
| `Scenarios.AliceGivesAge` | simulate_leads.py:23-26 | "30" is stored and the country question follows |
| `Scenarios.AliceGivesCountry` | simulate_leads.py:23-26 | "USA" is stored as "usa" and the interest question follows |
| `Scenarios.AliceIsSecured` | simulate_leads.py:23-26 | "Software" secures Alice; her row is `[id, name, 30, usa, software, secured]` |
| `Scenarios.BobDeclines` | simulate_leads.py:29-32 | "no" answers "no_response" and leaves the step at consent |
| `Scenarios.BobFollowUpStops` | agent.py:60-65 | a firing for a declined lead changes nothing and does not re-arm |
| `Scenarios.CharlieFollowedUp` | simulate_leads.py:35-38 | a quiet lead is not marked at exactly the delay but is marked `followed_up` just past it, and the timer re-arms both times |
| `Scenarios.FollowedUpAnswerWritesPending` | agent.py:130-135 | a followed-up lead answering the age question stays followed-up in memory while its row says `pending` |
| `Scenarios.MixedConsentProceeds` | agent.py:105-118 | a consent reply holding both affirmative and negative keywords proceeds to the age question |

## Left out

- File I/O and CSV quoting (agent.py:19-26, 34-36, 50-52) are not modelled. The file is its list of rows, and a write replaces the list.
- Data rows are assumed to have exactly six columns (`LeadTable.WellFormed`), which is stronger than the source needs. This program only writes such rows. In the source, only an empty row met before the match, or a matching row with fewer than six columns, raises `IndexError` (agent.py:38-43); rows after the match and longer rows pass. That error path and those tolerated shapes are not modelled.
- Conversation.Start: requires a pre-existing `leads.csv` to hold one row per lead id, so such a file is assumed to have been written by this program. `initialize_csv` (agent.py:19-26) accepts any existing file. The program's own writes keep ids unique (`LeadTable.UpsertKeepsIdsUnique`).
- An existing but empty file is accepted by `Upsert`. The invariant lemmas assume a header row, which `initialize_csv` writes.
- Concurrency is not modelled: threads, `threading.Timer`, the `timers` map and `csv_lock` (agent.py:14-16, 66-68, 112-114). The one exception is the lock's effect on the missing-file path, under Findings. Arming a timer is the output flag `armsFollowUp`, and re-arming is the `reschedule` flag of a follow-up check.
- `datetime.now()` is replaced by an integer `now` parameter in microseconds.
- The Google ADK `Agent`, `load_dotenv` and `root_agent` (agent.py:6-11, 153-159) are foreign libraries and are not modelled. The `agent` argument is unused by the logic.
- `print` output is not modelled. This covers the follow-up message, the opener text and the goodbyes. The interactive `__main__` loop (agent.py:165-185) is left out too.
- The fallback return at agent.py:150 is unreachable: the step is always one of the four values, and the model's `match` is exhaustive.
- `str.lower` and `str.strip` are modelled on ASCII only. Non-ASCII case mappings and non-ASCII whitespace are not modelled.
- `simulate_leads.py` is a thread-spawning driver with sleeps. Only its scripts are used, as the `Scenarios` lemmas.
- The `name` argument is always a string. A `None` name, which `name or ''` would turn into `''`, is not modelled.

## Findings

| source | as written | input that shows it | evidently intended | confidence | as-written member | corrected member |
|---|---|---|---|---|---|---|
| agent.py:46-47 | On a missing `leads.csv`, the handler calls `initialize_csv`. That function acquires `csv_lock`, which the update has held since agent.py:30. `threading.Lock` is not reentrant, so the update never returns. Had it returned, `temp_data` would still be empty and the rewritten file would lack its header. | `leads.csv` removed after import, then any `sales_conversation` call | recreate the file with its header and update it as if it held only the header | not executed; high | `LeadTable.UpdateLeadInCsvAsWritten` (blocks exactly on a missing file; see `LeadTable.UpdateCorrectionAgrees`) | `LeadTable.UpdateLeadInCsv` (never blocks, keeps the header, one row per lead: `LeadTable.UpdateLeadInCsvMirrors`) |
