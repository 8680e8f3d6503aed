# Online poll system: the poll and vote core in Dafny

This project models the domain logic of the `polls` application of an online poll system
built on Django REST Framework. Users create polls; a poll has questions (SINGLE or MULTIPLE
choice), a question has options, and users cast votes on options. The model covers:

- **Vote admission and insertion** (`VotesSerializer.validate_option_id`, `validate`, `create`,
  driven by `handle_vote`): the option must belong to the question, a SINGLE-choice question
  takes one vote per user, a closed or expired poll takes none; an admitted vote is appended.
- **Closing a poll** (`close_poll`): owner check, then the already-closed check, then the flag
  is set for good.
- **Results** (`handle_result`): per question of the poll, newest first, the vote count of each
  option, the question's total and each option's percentage, with the zero-total guard.
- **Access and visibility** (`PollPermission.has_object_permission`, the two `get_queryset`
  filters, `perform_create`).
- **Creation** of questions with their options (`QuestionsSerializer.create`) and of polls
  (`PollsSerializer.create`).
- **Records** (`polls/models.py`): primary keys, parent links, CASCADE deletion and the
  default orderings.

Layout, one module per file:

| file | module | contents |
|---|---|---|
| `wrappers.dfy` | `Wrappers` | `Option` and `Result` |
| `seqs.dfy` | `Seqs` | filtering, key lookup, a stable insertion sort, with their lemmas |
| `models.dfy` | `Models` | the records, the `Db` snapshot, the well-formedness invariant, CASCADE deletes, the `Store` class holding the five tables |
| `permissions.dfy` | `Permissions` | `PollPermission.has_object_permission` |
| `views.dfy` | `Views` | the poll and question listings and what they allow together with the permission |
| `serializers.dfy` | `Serializers` | vote admission, vote, question and poll creation |
| `services.dfy` | `Services` | `handle_vote`, `close_poll`, `handle_result` |

The database is a `Store` object whose five fields are the tables, each a sequence in
insertion order. The operations that write (`HandleVote`, `ClosePoll`, `CreateVote`,
`CreateQuestion`, `CreatePoll`) are methods that change the store; each states its new state
as a pure transition of the old one (`InsertVote`, `AfterClose`, `AddQuestion`,
`InsertPoll`), and proves that it keeps `Store.Valid()`. `Valid()` is `Consistent`: every
table has unique primary keys, every reference points to a stored row, and no user holds two
votes on one SINGLE-choice question. Reads (`Admit`, `Results`, the listings) are functions
of a `Db` snapshot, and `HandleResult` is a method that changes nothing.

Fields that the code reads but `polls/models.py` does not declare (`is_closed`, `expires_at`,
`is_public`, `description`, `question_type`) are taken from where they are used
(polls/serializers.py:13, :75, :80-82; polls/views.py:32; polls/services.py:23); `poll.close()`
is taken to set `is_closed` to true and save the poll.

Two points of the code's behaviour that the model keeps:

- The duplicate-vote check runs before the closed/expired check (polls/serializers.py:74-83),
  so a second vote on a SINGLE-choice question of a closed poll reports the duplicate.
- `PollPermission` gives a superuser no write or close rights over another user's poll: only the
  owner passes the last rule (polls/permissions.py:20), and `close_poll` checks ownership only
  (polls/services.py:21).

## Model

| member | source | states |
|---|---|---|
| Models.NewestPollsFirst | polls/models.py:34 | the default poll ordering is a permutation of its input with `created_at` non-increasing |
| Models.CloseIn | polls/services.py:26 | after `poll.close()` a lookup by any poll id finds the poll it found before, with `is_closed` set exactly when it is the closed poll; the set of poll ids and the other tables are unchanged |
| Models.DeletePoll | polls/models.py:38 | deleting a poll removes exactly it, its questions, their options and the votes on those options |
| Models.DeleteQuestion | polls/models.py:53 | deleting a question removes exactly it, its options and the votes on them |
| Models.DeleteOption | polls/models.py:69 | deleting an option removes exactly it and the votes on it |
| Models.DeleteUser | polls/models.py:24 | deleting a user removes exactly the user, the polls they created with everything under them, and the votes they cast |
| Models.DeletePollKeepsConsistent | polls/models.py:36-38 | after a poll is deleted the store has unique keys, no dangling reference and still one vote per user per SINGLE question |
| Models.DeleteQuestionKeepsConsistent | polls/models.py:51-53 | the same after a question is deleted |
| Models.DeleteOptionKeepsConsistent | polls/models.py:67-70 | the same after an option is deleted |
| Models.DeleteUserKeepsConsistent | polls/models.py:24 | the same after a user is deleted |
| Models.DeleteUserKeepsKeys | polls/models.py:6-68 | after a user is deleted every table still has unique primary keys |
| Models.DeleteUserKeepsReferences | polls/models.py:69-70 | after a user is deleted no poll, question, option or vote refers to a missing row |
| Permissions.ObjectPermissionRules | polls/permissions.py:10-20 | safe methods always pass; otherwise the `vote` action passes iff the user is authenticated; otherwise only the poll's creator passes; in that order of precedence |
| Views.PollQuerysetExact | polls/views.py:20-33 | the poll listing holds exactly the polls the principal may see (all for a superuser, own or public for a user, public for anonymous), each as often as stored, newest first |
| Views.QuestionVisibleIffPollVisible | polls/views.py:75-97 | in a well-formed store a question is listed exactly when its poll is in the principal's poll listing |
| Views.QuestionScopeNarrows | polls/views.py:93-97 | the listing scoped to `poll_pk` is exactly the unscoped listing intersected with that poll's questions, for superusers and everyone else |
| Views.ReadAccess | polls/permissions.py:12-13 | with a safe method, a poll can be reached exactly when it is stored and the principal may see it |
| Views.WriteAccess | polls/permissions.py:19-20 | with an unsafe method other than `vote`, a stored poll can be reached exactly by its creator; being a superuser is not enough |
| Serializers.AdmitIffAdmissible | polls/serializers.py:62-85 | in a well-formed store a vote is admitted exactly when its option is one of the question's, no SINGLE-choice duplicate exists and the poll is open and unexpired; the admitted option is the submitted one |
| Serializers.MismatchRejected | polls/serializers.py:62-66 | an option of another question is refused with the mismatch error whatever the poll's state |
| Serializers.NoDuplicateCheckOnMultiple | polls/serializers.py:75-77 | a MULTIPLE-choice question never reports a duplicate, and a well-formed store never reports a broken reference |
| Serializers.DuplicateReportedBeforeClosed | polls/serializers.py:74-83 | a repeat vote on a SINGLE-choice question is refused as a duplicate even when the poll is also closed or expired |
| Serializers.ClosedOrExpiredRejected | polls/serializers.py:80-83 | once the option and duplicate checks pass, a closed poll or one whose `expires_at` is strictly before now refuses the vote; either condition alone suffices |
| Serializers.AdmittedVoteKeepsConsistent | polls/serializers.py:68-92 | storing an admitted vote with a fresh id keeps keys, references and the one-vote-per-SINGLE-question rule |
| Serializers.CreateVote | polls/serializers.py:87-92 | on a vote that validation admitted, appends one vote with the fresh id, the chosen option and the requesting user; every existing row is unchanged and the store stays consistent |
| Serializers.CreateQuestion | polls/serializers.py:42-54 | an unknown or missing `poll_pk` fails with "Invalid poll ID" and stores nothing; otherwise one question under that poll, then one option per entry in order, and the store stays consistent |
| Serializers.AddQuestionKeepsConsistent | polls/serializers.py:51-54 | after creation the new question's options are exactly the created ones in the order given, earlier options and all votes are kept, and the store is consistent |
| Serializers.CreatePoll | polls/serializers.py:16-18 | an authenticated requester becomes `created_by` of the one appended poll (also `perform_create`, polls/views.py:35-37); an anonymous one cannot own a poll and nothing is stored |
| Services.HandleVote | polls/services.py:6-18 | a refused vote returns its error and leaves the store unchanged; an admitted one appends exactly one vote; the store stays consistent |
| Services.ClosePoll | polls/services.py:20-27 | returns the `close_poll` decision (non-owner refused, then "already closed", then "closed") and changes the store only on a fresh close; the store stays consistent |
| Services.CloseKeepsConsistent | polls/services.py:26 | setting the closed flag keeps the store consistent |
| Services.NonOwnerCannotClose | polls/services.py:21-22 | anyone but the creator is refused and nothing changes, even if the poll is already closed |
| Services.CloseIdempotent | polls/services.py:23-24 | after the owner's close, a second close reports "Poll already closed." and changes nothing |
| Services.CloseIsMonotonic | polls/services.py:26-27 | closing never clears a closed flag and leaves the closed poll closed |
| Services.NoVoteAfterClose | polls/serializers.py:80-83 | once the owner has closed a poll, every vote on its questions is refused, and one that passes the option and duplicate checks is refused as closed |
| Services.ClosedPollRefusesVotes | polls/serializers.py:74-83 | a question whose poll is closed takes no vote; one that passes the option and duplicate checks is refused as closed |
| Services.VoteCount | polls/services.py:39-41 | an option's count is at most the number of votes, and is zero iff no vote references the option |
| Services.VoteCountIsReferences | polls/services.py:39-41 | an option's count is the number of stored votes that reference it |
| Services.HandleResult | polls/services.py:29-61 | the loop builds exactly `Results`: one entry per question of the poll in listing order; it modifies nothing |
| Services.ResultsListPollQuestions | polls/services.py:30-38 | the results carry the poll's id and title and one entry per listed question, with its id and text, in order |
| Services.PollQuestionsExact | polls/services.py:36 | the listed questions are exactly the poll's questions, each as often as stored, newest first |
| Services.ResultsListQuestionOptions | polls/services.py:39-56 | a question's entry lists exactly the question's options, each with its own id, text and vote count, in the order the model fixes (by option id); when option ids are unique, as the primary key makes them, the ids are strictly increasing, so each option appears once |
| Services.TotalIsSumOfCounts | polls/services.py:43 | `total_votes` is the sum of the listed vote counts |
| Services.TotalVotesAreQuestionVotes | polls/services.py:39-43 | in a well-formed store `total_votes` is the number of stored votes cast on any option of the question: no vote is missed or counted twice |
| Services.PercentagesBounded | polls/services.py:54 | every percentage lies in [0, 100]; with zero total every count and percentage is 0 |
| Services.PercentagesSumTo100 | polls/services.py:43-56 | when the question has votes, its percentages add up to exactly 100 |

## Left out

- Services.PercentagesBounded: percentages are exact reals; the `round(..., 2)` of polls/services.py:54 is not modelled, so the bounds and Services.PercentagesSumTo100 hold before rounding.
- Services.ResultsListQuestionOptions: the model lists a question's options by id, but the options query of polls/services.py:39-41 is an aggregate (`annotate(Count(...))`), to which Django does not apply the default ordering of polls/models.py:65, so the source leaves the order to the database; ids are natural numbers standing for UUIDs.
- Views.QuestionVisibleIffPollVisible: the question listing is modelled in table order; the default ordering by (`poll_id`, `question_id`) of polls/models.py:49 is not modelled.
- Services.PollQuestionsExact: questions with equal `created_at` keep table order; the database leaves their order open.
- Registration and login (`user/models.py`, `user/serializers.py`, `user/services.py`, `user/views.py`): password hashing and token issuance are library calls with no logic of their own.
- `polls/urls.py`: route registration only; it imports a `VoteAPIView` that `polls/views.py` does not define.
- `ClosePollSerializer` is imported by polls/views.py:7 but not defined in `polls/serializers.py`; `VotePermission` and `QuestionPermission` are imported by polls/views.py:8 but not defined in `polls/permissions.py`; the per-action permission classes of polls/views.py:39, :49 and :102 are not modelled.
- The DRF plumbing: `get_object` lookups and their 404s, `Response` bodies and status codes, request parsing, the `results`, `close` and `vote` action wrappers. Validation errors are returned as values (`VoteError`, `QuestionError`, `CloseError`) with their message texts (`VoteErrorMessage`, `QuestionErrorMessage`, `CloseErrorMessage`); the unknown-option message omits the offending pk, since ids are naturals standing for UUIDs.
- Serializers.ValidateOptionId: the unknown-option error stands for the primary-key field check DRF performs before `validate_option_id`; the broken-reference error cannot occur in a consistent store.
- The generic `update`, `partial_update` and `destroy` of the viewsets are not modelled. `PollsSerializer` lists `is_closed` as writable, so an update by the owner could clear the flag; Services.CloseIsMonotonic is about `close_poll` only. Likewise `question_type` is writable through `QuestionsSerializer` (polls/serializers.py:38): changing a MULTIPLE question that holds repeat votes to SINGLE would break the one-vote rule of `Consistent`, which the model keeps only because it has no such update.
- Concurrency: the duplicate-vote check reads and then writes with no uniqueness constraint in storage; the model runs votes one at a time.
- Fresh UUIDs and the clock are parameters (`voteId`, `questionId`, `optionIds`, `pollId`, `now`); freshness is a precondition.
- `is_public` is not a serializer field and its model default is not visible; Serializers.CreatePoll takes it as a parameter.
- `handle_vote` returns the serializer; Services.HandleVote returns the stored vote or the error.
- The `str()` conversion of option ids in the results is not modelled.
