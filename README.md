# VotingLive in Dafny

VotingLive is a live-polling toy made of four PyQt programs that exchange JSON messages over an
MQTT broker:

- **question_creation.py** is the question editor. It publishes `{question, choices}` on
  `votinglivepoll/question`.
- **client.py** is the voting client. It asks for a pseudonym, shows a question with exactly
  four choices, and publishes `{pseudo, reponse}` on `votinglivepoll/vote`.
- **admin.py** is the multi-poll dashboard. It keeps five parallel lists indexed by poll:
  - the polls;
  - their tallies;
  - their total time series;
  - their per-choice time series;
  - their start times.
- **results.py** is a single-poll results window. It keeps one tally, which every question
  resets and every vote increments. It listens on the `votinglivepollbis/...` topics.

The model keeps the state these programs hold and the rules they apply to it, with the network,
the widgets and the charts stripped away.

## Modules

- `Wire` holds `Option` and the decoded JSON payload. A decoded payload is a record with one
  optional field per key the programs read or write.
- `Dict` models Python's insertion-ordered dict as a list of (key, value) entries. It covers:
  - `d[k]`, `d[k] = v` and `d[k] += inc`;
  - `sum(d.values())`;
  - the comprehension `{c: v for c in cs}`;
  - the "count > 0" filters that feed the bar and pie charts.
- `Text` covers `str.strip()`, `str.isdigit()` and `int()`.
- `Admin` models the dashboard:
  - the decode step of `on_message`;
  - its state as a class with the five parallel lists;
  - `add_poll`, and `record_vote` with its two loops.

  The meaning of one accepted vote is the function `ApplyVote` on a `PollState`. The invariant
  `Consistent` holds for every poll.
- `Results` models the single-poll window: routing, `update_question` (a loop) and
  `update_votes`. It also models a replay of a vote sequence, which gives the meaning of the
  counts.
- `QuestionCreation` models the editor:
  - the choice-count rule;
  - the choice fields;
  - `publish_question` with its checks and its set of published questions.
- `Client` models the voting client:
  - the pseudonym check;
  - the acceptance rule for a question;
  - the buttons;
  - the vote message.
- `Interop` connects the messages across programs.
  - A question the editor publishes is decoded by the dashboard as a new poll.
  - Such a question is shown by the client exactly when it has four choices.
  - The client's vote carries no `question` key, so the dashboard decodes it as a vote for the
    empty question text. Such a vote reaches no poll that came from the editor.

### Behaviour of the code worth knowing

- A re-announced question text is not deduplicated. `add_poll` appends a second poll
  (admin.py:159, admin.py:168), and votes keep going to the first poll with that text
  (`Admin.FirstMatchAppend`).
- Elapsed time is `timestamp - start`, with no clamp (admin.py:190,
  `Admin.ElapsedCanBeNegative`); it is negative for a vote stamped before the poll's first vote.
- results.py uses the topics `votinglivepollbis/question` and `votinglivepollbis/vote`, not
  the `votinglivepoll/...` topics the other programs use. The constants are kept as written.

## Model

| member | source | states |
|---|---|---|
| Dict.Dedup | admin.py:169 | the keys a list gives a dict: no repetition, and exactly the same members |
| Dict.AssignEffect | results.py:150 | `d[k] = v` sets k to v and touches no other entry; an existing key keeps its place, a new key is appended; the dict stays free of duplicate keys |
| Dict.IncrementEffect | admin.py:187 | `d[k] += inc` on a present key: that count grows by inc, every other entry keeps its place and value, the keys are unchanged, and the sum grows by inc |
| Dict.IncrementNonNegative | admin.py:187 | incrementing by a non-negative amount keeps every count non-negative |
| Dict.DedupRepeated | admin.py:169 | a repeated choice adds no second key |
| Dict.DedupAppend | admin.py:169 | the keys come in order of first occurrence: one more choice adds nothing when it was already there, and goes at the end otherwise |
| Dict.DedupDistinct | admin.py:169 | a list of choices with no repetition gives its keys exactly in list order |
| Dict.FromKeysIsFill | admin.py:169 | `{c: v for c in cs}` is one entry per distinct choice, in order of first occurrence, each holding v |
| Dict.ZeroTally | results.py:149-150 | a tally built from a list of choices is well formed, has exactly those choices as keys (duplicates once), holds 0 for each, and sums to 0 |
| Dict.PositiveItemsMembers | admin.py:230 | a (choice, count) pair is a chart input exactly when it is in the tally and its count is positive |
| Dict.PositiveItemsConcat | admin.py:230 | the filter keeps the tally's order: it is applied entry by entry and distributes over concatenation |
| Dict.PositiveListsAligned | results.py:175-176 | the label list and the value list have the same length, and position j of each holds the two halves of the j-th kept pair (the same holds for `zip(*items)` at admin.py:232) |
| Dict.NoPositiveItems | admin.py:231 | there are no chart inputs (the "Pas de votes" branch) exactly when no count is positive |
| Dict.PositiveVotesSum | admin.py:249-250 | when no count is negative, the kept values add up to the whole tally |
| Text.StripStart | client.py:64 | the left strip returns a suffix of its input, removes only white space, and does not start with white space |
| Text.StripEnd | client.py:64 | the right strip returns a prefix of its input, removes only white space, and does not end with white space |
| Text.StripShape | question_creation.py:177 | `strip()` keeps one contiguous piece of its input, cuts only white space on each side, and neither end of the result is white space |
| Text.StripEmptyIff | question_creation.py:181 | a stripped text is empty exactly when the input is all white space |
| Text.StripIdempotent | question_creation.py:178 | stripping a stripped text changes nothing |
| Text.ValueOfDecimal | question_creation.py:171-172 | the decimal rendering of n passes `isdigit()`, and `int()` reads it back as n |
| Text.ValueLeadingZero | question_creation.py:172 | a leading zero does not change the value `int()` reads |
| Admin.Decode | admin.py:154-165 | a message on the question topic becomes a new poll at index `len(polls)`; a message on any other topic becomes a vote |
| Admin.FirstMatch | admin.py:183-184 | the result is the lowest index whose question text matches exactly, or none when no poll matches |
| Admin.InitialStateFresh | admin.py:167-172 | a new poll is consistent and has every declared choice at 0 (a duplicate choice once), no total samples, an empty series per choice, and no start time |
| Admin.ApplyVoteConsistent | admin.py:185-196 | an accepted vote keeps the poll's invariant: counts are non-negative, the number of total samples equals the sum of counts, the k-th total sample holds k+1, the first sample is at elapsed time 0, and each choice's series is aligned with the total series and ends at the choice's count |
| Admin.ApplyVoteTallyConsistent | admin.py:185-192 | after an accepted vote the tally keeps its keys, the counts stay non-negative, the number of total samples equals the new sum, the k-th total sample holds k+1, and the first sample is at elapsed time 0 |
| Admin.ApplyVoteSeriesConsistent | admin.py:193-196 | after an accepted vote every choice's series has one sample per total sample, at the same elapsed times, and ends at the choice's count |
| Admin.ApplyVoteCounts | admin.py:185-187 | an accepted vote raises exactly the voted choice's count by 1; every other entry keeps its place and value |
| Admin.ApplyVoteTime | admin.py:188-190 | the first accepted vote sets the start to its timestamp and gets elapsed time 0; a later vote keeps the start and gets `timestamp - start` |
| Admin.ApplyVoteSamples | admin.py:191-196 | an accepted vote appends one total sample, holding the new sum of the counts, which is the number of accepted votes; every choice's series gets one sample at the same elapsed time with that choice's new count; earlier samples are unchanged |
| Admin.LastSamplesMatchTally | admin.py:191-196 | in a poll with votes, the last total sample is the sum of the counts, and the last sample of each choice's series is that choice's count |
| Admin.ElapsedCanBeNegative | admin.py:190 | after a first vote at t1, a vote at t2 is recorded at elapsed time t2 - t1, which is negative when t2 is earlier; the total series is then [(0, 1), (t2 - t1, 2)] |
| Admin.FirstMatchAppend | admin.py:168 | appending a poll never changes where an already-matched question's votes go, so a re-announced text gets a second poll that no vote reaches |
| Admin.AppendSamples | admin.py:193-196 | the inner loop appends to every choice's series the previous value (0 for an empty series) plus 1 for the voted choice and plus 0 for the others |
| Admin.VoteResults.constructor | admin.py:34-38 | the dashboard starts with five empty lists |
| Admin.VoteResults.AddPoll | admin.py:167-172 | exactly one element is appended to each of the five lists, so they keep equal lengths and every poll stays consistent; the returned index is the previous poll count |
| Admin.VoteResults.TakeVote | admin.py:185-196 | an accepted vote changes only index i of the lists, to what `ApplyVote` gives |
| Admin.VoteResults.RecordVote | admin.py:182-199 | only the first poll with the vote's question text can take the vote, and only when the choice is one of its tally's keys; a vote with no matching poll or an unknown choice leaves every list unchanged |
| Admin.VoteResults.OnMessage | admin.py:154-165 | a question appends a poll with the announced text and choices; a vote has the effect of `record_vote` on the decoded fields |
| Results.Route | results.py:124-132 | the question topic resets the tally; any other topic is a vote worth 1 |
| Results.VoteStepCounts | results.py:162-164 | a vote for a current choice raises that choice's count by one, keeps every other count and the keys, and raises the sum by one |
| Results.ReplayCounts | results.py:144-164 | after a question and a sequence of votes, the tally's keys are exactly the question's distinct choices; each choice's count is the number of votes for it; the counts sum to the number of votes that named a current choice |
| Results.VoteResults.constructor | results.py:31 | the window starts with an empty tally |
| Results.VoteResults.UpdateQuestion | results.py:144-150 | the tally is replaced by exactly the new choices, each at 0, and nothing earlier survives |
| Results.VoteResults.UpdateVotes | results.py:162-164 | a known response raises only its own count, by inc; an unknown response changes nothing |
| Results.VoteResults.OnMessage | results.py:124-132 | routing followed by the slot; the counts never go negative and sum to the number of votes accepted since the last question |
| QuestionCreation.CountRuleDecimal | question_creation.py:169-174 | the count field accepts the decimal text of n exactly when 2 <= n <= 30 |
| QuestionCreation.CountRuleSound | question_creation.py:171-173 | an accepted count text is all digits and its value is between 2 and 30; a leading zero is accepted as well |
| QuestionCreation.SubmissionMissing | question_creation.py:176-199 | nothing is published exactly when the question or some choice is only white space |
| QuestionCreation.SubmissionDuplicate | question_creation.py:201-220 | a filled-in submission is refused exactly when its stripped question was already published |
| QuestionCreation.SubmissionPublished | question_creation.py:222-224 | a publication carries the stripped question and the stripped choices in field order; none of them is empty or has white space at either end; the question was not published before |
| QuestionCreation.NoRepublish | question_creation.py:202-227 | once a question is published and recorded, no later submission with the same stripped text is published, whatever its choices |
| QuestionCreation.QuestionCreator.constructor | question_creation.py:97 | the editor starts with an empty set of published questions and four empty choice fields |
| QuestionCreation.QuestionCreator.TypeQuestion | question_creation.py:177 | the question field holds the text typed into it |
| QuestionCreation.QuestionCreator.TypeChoice | question_creation.py:178 | choice field i holds the text typed into it, and the other fields are unchanged |
| QuestionCreation.QuestionCreator.UpdateChoiceFields | question_creation.py:141-167 | afterwards there are exactly `count` choice fields, all empty |
| QuestionCreation.QuestionCreator.OnChoiceCountChange | question_creation.py:169-174 | the fields are rebuilt to the new count only when the rule accepts the text; otherwise they stay as they were |
| QuestionCreation.QuestionCreator.PublishQuestion | question_creation.py:176-252 | the outcome is the outcome of the checks, in order; a refusal changes nothing; a publication adds the question to the set, where it appears once, and empties every field while keeping their number |
| Client.Acceptance | client.py:148-152 | a question is accepted exactly when its text is non-empty and the chosen list has exactly four entries; the accepted pair is that text and that list |
| Client.ChoixOverridesChoices | client.py:149-152 | because `or` takes a non-empty `choix` as it is, a `choix` whose length is not four is refused even when `choices` holds four entries; an empty or missing `choix` leaves the decision to `choices` |
| Client.ChoiceListPreference | client.py:149 | the list comes from `choix` when that is present and non-empty, and otherwise from `choices` |
| Client.VotingClient.constructor | client.py:83-124 | the client shows the waiting label, stores no choices, and has four disabled buttons labelled "A. Réponse 1" to "D. Réponse 4" |
| Client.VotingClient.OnMessage | client.py:145-161 | an accepted question replaces the stored choices with the received list; button i shows `chr(65+i)`, then ". ", then choice i, and is enabled; a rejected message changes nothing |
| Client.VotingClient.ClickButton | client.py:123 | button i votes for stored choice i, with a message that has only the keys `pseudo` and `reponse` |
| Client.Validate | client.py:63-70 | a pseudonym that is empty after stripping opens no voting client; otherwise the client opens with the stripped pseudonym |
| Interop.ClientVoteDecoded | admin.py:161-165 | the dashboard decodes the client's vote as a vote for the empty question text, stamped with the dashboard's clock |
| Interop.ClientVoteTarget | admin.py:183-184 | a client vote reaches some poll exactly when some poll's question text is empty |
| Interop.ClientVoteDroppedForEditorPolls | admin.py:183-184 | when every poll came from a question the editor published, a client vote matches no poll |
| Interop.PublishedQuestionAnnounced | question_creation.py:223-224 | the dashboard decodes a published question as a new poll at the next index, with the stripped text and the stripped choices |
| Interop.PublishedQuestionShownIffFour | client.py:149-152 | the client shows a published question exactly when the editor had four choice fields, and then it shows the stripped text and the stripped choices |

## Left out

- MQTT connect, subscribe, publish and the network loop (admin.py:145-152, results.py:113-122,
  client.py:134-143, question_creation.py:20-24). Each message handler is a function of the
  decoded payload. A published message is the handler's result.
- JSON encoding and decoding. A payload is a record of optional fields with string, list of
  string, and real values. A failed `json.loads` in client.py falls into the `except` branch
  and changes nothing. Values of other JSON types are not modelled. In client.py they can be
  accepted or partly applied: a four-letter string under `choix` passes the length test
  (client.py:151) and puts one letter on each button; a four-key object under `choix` sets the
  label and `self.choices` (client.py:154-155) before `choix[0]` raises at client.py:157.
- The `pyqtSignal` handoff from the network thread to the GUI thread (admin.py:22-24,
  results.py:19-21). Events are sequential calls, so the race on `len(self.polls)` between
  decoding and `add_poll` is not modelled.
- Widgets, layouts, style sheets, message boxes and every matplotlib call. This means:
  - the labels in results.py:151-156 and 166-168;
  - `show_results`, `update_ui` and the `current_idx` refresh in admin.py:197-226;
  - the time-series plots;
  - the `autopct` percentages.

  The chart inputs, which are the count > 0 filters, are modelled.
- The timestamp. `time.time()` and `float(...)` (admin.py:164) become a given `real` parameter
  `now` and a `real` field. NaN, infinities and rounding are not modelled.
- Text rules:
  - `str.isdigit()` is modelled for ASCII digits only. Python also accepts other Unicode
    digits, but `QIntValidator` keeps them out of the field.
  - `str.strip()` uses the white space that `str.isspace()` accepts.
- Launching the editor as a subprocess (admin.py:88).
- host.py, which publishes a hard-coded question when it is imported (host.py:13-28). Its
  misplaced `publish_question` repeats the emptiness check of question_creation.py.
- Qt's own `QIntValidator(2, 30)` on the count field. The model applies only the check in
  `on_choice_count_change`, to any text.
- Voter identity. No program deduplicates voters, and neither does the model.
