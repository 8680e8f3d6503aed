/** Vote admission, vote insertion, question creation and poll creation (polls/serializers.py). */
module Serializers {
  import opened Wrappers
  import opened Seqs
  import opened Models

  // ----- VotesSerializer -----

  /** Why a vote is refused. `OptionNotFound` is the primary-key field's own check on `option_id`;
      `BrokenReference` stands for a dangling foreign key, which a well-formed store never has. */
  datatype VoteError = OptionNotFound | OptionMismatch | AlreadyVoted | VotingClosed | BrokenReference

  function VoteErrorMessage(e: VoteError): string
  {
    match e
    case OptionNotFound => "Invalid pk - object does not exist."
    case OptionMismatch => "This option doesn't belong to the question."
    case AlreadyVoted => "You have already voted on this question."
    case VotingClosed => "Voting is closed or expired for this poll."
    case BrokenReference => "Related object does not exist."
  }

  /** `has_expired`: the poll has an expiry time and `now` is strictly after it. */
  predicate HasExpired(p: Poll, now: Time)
  {
    p.expiresAt.Some? && now > p.expiresAt.value
  }

  /** `validate_option_id`: the submitted option, resolved by its primary key, must belong to the
      question being voted on. */
  function ValidateOptionId(db: Db, question: Question, optionId: OptionId): Result<PollOption, VoteError>
  {
    match FindOption(db, optionId)
    case None => Failure(OptionNotFound)
    case Some(o) => if o.question != question.id then Failure(OptionMismatch) else Success(o)
  }

  /** `Votes.objects.filter(user_id=user, option_id__question_id=question).exists()`. */
  predicate HasVoted(db: Db, user: UserId, question: QuestionId)
  {
    exists v :: v in db.votes && v.user == user && OptionParent(db, v.option) == Some(question)
  }

  /** `validate`: from the option to its question and poll; the duplicate check on a SINGLE
      question comes before the closed-or-expired check. */
  function Validate(db: Db, user: UserId, option: PollOption, now: Time): Result<PollOption, VoteError>
  {
    match FindQuestion(db, option.question)
    case None => Failure(BrokenReference)
    case Some(question) =>
      match FindPoll(db, question.poll)
      case None => Failure(BrokenReference)
      case Some(poll) =>
        if question.questionType == Single && HasVoted(db, user, question.id) then Failure(AlreadyVoted)
        else if poll.isClosed || HasExpired(poll, now) then Failure(VotingClosed)
        else Success(option)
  }

  /** `is_valid()`: the field validator first, then `validate`. */
  function Admit(db: Db, user: UserId, question: Question, optionId: OptionId, now: Time): Result<PollOption, VoteError>
  {
    match ValidateOptionId(db, question, optionId)
    case Failure(e) => Failure(e)
    case Success(o) => Validate(db, user, o, now)
  }

  /** The conditions under which a vote may be stored, stated without the order of the checks. */
  ghost predicate Admissible(db: Db, user: UserId, question: Question, optionId: OptionId, now: Time)
  {
    && (exists o :: o in db.options && o.id == optionId && o.question == question.id)
    && !(question.questionType == Single && HasVoted(db, user, question.id))
    && (exists p :: p in db.polls && p.id == question.poll && !p.isClosed && !HasExpired(p, now))
  }

  /** In a well-formed store a vote is admitted exactly when it is admissible, and then the
      admitted option is the submitted one. */
  lemma AdmitIffAdmissible(db: Db, user: UserId, question: Question, optionId: OptionId, now: Time)
    requires Wellformed(db) && question in db.questions
    ensures Admit(db, user, question, optionId, now).Success? <==> Admissible(db, user, question, optionId, now)
    ensures Admit(db, user, question, optionId, now).Success? ==>
      Admit(db, user, question, optionId, now).value.id == optionId
  {
    FindByUnique(db.questions, QuestionKey, question);
    var p :| p in db.polls && PollKey(p) == question.poll;
    FindByUnique(db.polls, PollKey, p);
    forall p' | p' in db.polls && p'.id == question.poll ensures p' == p {
      FindByUnique(db.polls, PollKey, p');
    }
    if o :| o in db.options && o.id == optionId && o.question == question.id {
      FindByUnique(db.options, OptionKey, o);
    }
  }

  /** An option of another question is refused as a mismatch, whatever the state of the poll. */
  lemma MismatchRejected(db: Db, user: UserId, question: Question, o: PollOption, now: Time)
    requires UniqueBy(db.options, OptionKey)
    requires o in db.options && o.question != question.id
    ensures Admit(db, user, question, o.id, now) == Failure(OptionMismatch)
  {
    FindByUnique(db.options, OptionKey, o);
  }

  /** A second vote by the same user on a SINGLE question is refused as a duplicate, even when the
      poll is also closed or expired: the duplicate check comes first. */
  lemma DuplicateReportedBeforeClosed(db: Db, user: UserId, question: Question, o: PollOption, now: Time)
    requires Wellformed(db) && question in db.questions
    requires o in db.options && o.question == question.id
    requires question.questionType == Single && HasVoted(db, user, question.id)
    ensures Admit(db, user, question, o.id, now) == Failure(AlreadyVoted)
  {
    FindByUnique(db.options, OptionKey, o);
    FindByUnique(db.questions, QuestionKey, question);
  }

  /** A vote on a closed poll, or on an expired one, is refused once the option and duplicate
      checks pass; either condition alone suffices. */
  lemma ClosedOrExpiredRejected(db: Db, user: UserId, question: Question, o: PollOption, p: Poll, now: Time)
    requires Wellformed(db) && question in db.questions && p in db.polls && p.id == question.poll
    requires o in db.options && o.question == question.id
    requires !(question.questionType == Single && HasVoted(db, user, question.id))
    requires p.isClosed || HasExpired(p, now)
    ensures Admit(db, user, question, o.id, now) == Failure(VotingClosed)
  {
    FindByUnique(db.options, OptionKey, o);
    FindByUnique(db.questions, QuestionKey, question);
    FindByUnique(db.polls, PollKey, p);
  }

  /** MULTIPLE questions never report a duplicate, and a well-formed store never reports a broken reference. */
  lemma NoDuplicateCheckOnMultiple(db: Db, user: UserId, question: Question, optionId: OptionId, now: Time)
    requires Wellformed(db) && question in db.questions
    ensures question.questionType == Multiple ==> Admit(db, user, question, optionId, now) != Failure(AlreadyVoted)
    ensures Admit(db, user, question, optionId, now) != Failure(BrokenReference)
  {
    var found := ValidateOptionId(db, question, optionId);
    if found.Success? {
      var o := found.value;
      assert o.question == question.id;
      QuestionAndPollFound(db, question);
      var poll := FindPoll(db, question.poll).value;
      assert Admit(db, user, question, optionId, now) == Validate(db, user, o, now);
      assert Validate(db, user, o, now) ==
        if question.questionType == Single && HasVoted(db, user, question.id) then Failure(AlreadyVoted)
        else if poll.isClosed || HasExpired(poll, now) then Failure(VotingClosed)
        else Success(o);
    }
  }

  /** In a well-formed store a stored question and its poll are found by id. */
  lemma QuestionAndPollFound(db: Db, question: Question)
    requires Wellformed(db) && question in db.questions
    ensures FindQuestion(db, question.id) == Some(question)
    ensures FindPoll(db, question.poll).Some?
  {
    FindByUnique(db.questions, QuestionKey, question);
    var p :| p in db.polls && PollKey(p) == question.poll;
    FindByUnique(db.polls, PollKey, p);
  }

  /** The store after `VotesSerializer.create` saved `v`. */
  function InsertVote(db: Db, v: Vote): Db
  {
    db.(votes := db.votes + [v])
  }

  /** Appending a vote with a fresh id whose option and user are stored keeps keys and references. */
  lemma InsertVoteKeepsWellformed(db: Db, v: Vote)
    requires Wellformed(db)
    requires v.option in Ids(db.options, OptionKey) && v.user in Ids(db.users, UserKey)
    requires v.id !in Ids(db.votes, VoteKey)
    ensures Wellformed(InsertVote(db, v))
  {
    AppendUnique(db.votes, VoteKey, v);
  }

  /** Storing an admitted vote with a fresh id keeps every key, every reference and the one-vote rule. */
  lemma AdmittedVoteKeepsConsistent(db: Db, user: UserId, question: Question, optionId: OptionId,
                                    voteId: VoteId, now: Time)
    requires Consistent(db) && question in db.questions
    requires user in Ids(db.users, UserKey) && voteId !in Ids(db.votes, VoteKey)
    requires Admit(db, user, question, optionId, now).Success?
    ensures Consistent(InsertVote(db, Vote(voteId, optionId, user, now)))
  {
    var v := Vote(voteId, optionId, user, now);
    var r := InsertVote(db, v);
    AdmitIffAdmissible(db, user, question, optionId, now);
    var o :| o in db.options && o.id == optionId && o.question == question.id;
    FindByUnique(db.options, OptionKey, o);
    InsertVoteKeepsWellformed(db, v);
    assert OptionParent(db, optionId) == Some(question.id);
    assert question.questionType == Single ==> !HasVoted(db, user, question.id);
    forall v1, v2, q | v1 in r.votes && v2 in r.votes && q in r.questions && q.questionType == Single &&
        OptionParent(r, v1.option) == Some(q.id) && OptionParent(r, v2.option) == Some(q.id) && v1.user == v2.user
      ensures v1 == v2
    {
      SameVoteRule(db, v, question, v1, v2, q);
    }
  }

  /** One pair of votes after the insertion of `v`, an admitted vote on `question`. */
  lemma SameVoteRule(db: Db, v: Vote, question: Question, v1: Vote, v2: Vote, q: Question)
    requires Consistent(db) && question in db.questions
    requires OptionParent(db, v.option) == Some(question.id)
    requires question.questionType == Single ==> !HasVoted(db, v.user, question.id)
    requires v1 in db.votes + [v] && v2 in db.votes + [v] && q in db.questions && q.questionType == Single
    requires OptionParent(db, v1.option) == Some(q.id) && OptionParent(db, v2.option) == Some(q.id)
    requires v1.user == v2.user
    ensures v1 == v2
  {
    if v1 != v2 && (v1 == v || v2 == v) {
      var w := if v1 == v then v2 else v1;
      assert w in db.votes;
      assert q.id == question.id;
      FindByUnique(db.questions, QuestionKey, q);
      FindByUnique(db.questions, QuestionKey, question);
      assert false;
    }
  }

  /** `VotesSerializer.create`: stores a vote with a fresh id for the option and the requesting
      user. `save()` runs only after `is_valid()` passed, so the vote on `question` is admitted. */
  method CreateVote(store: Store, question: Question, option: PollOption, user: UserId, voteId: VoteId, now: Time)
    returns (v: Vote)
    requires store.Valid() && question in store.questions
    requires user in Ids(store.users, UserKey) && voteId !in Ids(store.votes, VoteKey)
    requires Admit(store.State(), user, question, option.id, now).Success?
    modifies store
    ensures store.Valid()
    ensures v == Vote(voteId, option.id, user, now)
    ensures store.State() == InsertVote(old(store.State()), v)
  {
    AdmittedVoteKeepsConsistent(store.State(), user, question, option.id, voteId, now);
    v := Vote(voteId, option.id, user, now);
    store.votes := store.votes + [v];
  }

  // ----- QuestionsSerializer -----

  datatype QuestionError = InvalidPollId

  function QuestionErrorMessage(e: QuestionError): string
  {
    "Invalid poll ID"
  }

  /** The options created for question `q`, one per entry, in the order given. */
  function NewOptions(q: QuestionId, ids: seq<OptionId>, texts: seq<string>, now: Time): seq<PollOption>
    requires |ids| == |texts|
  {
    seq(|ids|, i requires 0 <= i < |ids| => PollOption(ids[i], q, texts[i], now))
  }

  /** The store after a question and its options were created. */
  function AddQuestion(db: Db, q: Question, ids: seq<OptionId>, texts: seq<string>, now: Time): Db
    requires |ids| == |texts|
  {
    db.(questions := db.questions + [q], options := db.options + NewOptions(q.id, ids, texts, now))
  }

  /** Fresh, pairwise distinct option ids. */
  ghost predicate FreshOptionIds(db: Db, ids: seq<OptionId>)
  {
    && (forall i :: 0 <= i < |ids| ==> ids[i] !in Ids(db.options, OptionKey))
    && (forall i, j :: 0 <= i < j < |ids| ==> ids[i] != ids[j])
  }

  /** After creating a question under an existing poll, with fresh ids, the store is still
      consistent, the new question's options are exactly the created ones, in the order given,
      and every stored option and vote is kept. */
  lemma AddQuestionKeepsConsistent(db: Db, q: Question, ids: seq<OptionId>, texts: seq<string>, now: Time)
    requires Consistent(db) && |ids| == |texts|
    requires q.poll in Ids(db.polls, PollKey) && q.id !in Ids(db.questions, QuestionKey)
    requires FreshOptionIds(db, ids)
    ensures var r := AddQuestion(db, q, ids, texts, now);
      && Consistent(r)
      && Filter(r.options, (o: PollOption) => o.question == q.id) == NewOptions(q.id, ids, texts, now)
      && r.options[..|db.options|] == db.options && r.votes == db.votes
  {
    var r := AddQuestion(db, q, ids, texts, now);
    AddQuestionKeepsKeys(db, q, ids, texts, now);
    AddQuestionKeepsReferences(db, q, ids, texts, now);
    AddQuestionKeepsOneVote(db, q, ids, texts, now);
    NewOptionsOnlyOnes(db.options, NewOptions(q.id, ids, texts, now), q.id, ids, texts, now);
    assert r.options[..|db.options|] == db.options;
  }

  lemma AddQuestionKeepsKeys(db: Db, q: Question, ids: seq<OptionId>, texts: seq<string>, now: Time)
    requires Wellformed(db) && |ids| == |texts|
    requires q.id !in Ids(db.questions, QuestionKey)
    requires FreshOptionIds(db, ids)
    ensures var r := AddQuestion(db, q, ids, texts, now);
      UniqueBy(r.questions, QuestionKey) && UniqueBy(r.options, OptionKey)
  {
    var r := AddQuestion(db, q, ids, texts, now);
    var created := NewOptions(q.id, ids, texts, now);
    var n := |db.options|;
    AppendUnique(db.questions, QuestionKey, q);
    forall i, j | 0 <= i < j < |r.options| ensures OptionKey(r.options[i]) != OptionKey(r.options[j]) {
      if j >= n && i < n {
        assert r.options[i] == db.options[i];
        assert r.options[j] == created[j - n];
      } else if i >= n {
        assert r.options[i] == created[i - n] && r.options[j] == created[j - n];
      } else {
        assert r.options[i] == db.options[i] && r.options[j] == db.options[j];
      }
    }
  }

  lemma AddQuestionKeepsReferences(db: Db, q: Question, ids: seq<OptionId>, texts: seq<string>, now: Time)
    requires Wellformed(db) && |ids| == |texts|
    requires q.poll in Ids(db.polls, PollKey)
    ensures var r := AddQuestion(db, q, ids, texts, now);
      && (forall q' :: q' in r.questions ==> q'.poll in Ids(r.polls, PollKey))
      && (forall o :: o in r.options ==> o.question in Ids(r.questions, QuestionKey))
      && (forall v :: v in r.votes ==> v.option in Ids(r.options, OptionKey))
  {
    var r := AddQuestion(db, q, ids, texts, now);
    forall o | o in r.options ensures o.question in Ids(r.questions, QuestionKey) {
      if o in db.options {
        var q' :| q' in db.questions && QuestionKey(q') == o.question;
        assert q' in r.questions;
      } else {
        assert q in r.questions;
      }
    }
    forall v | v in r.votes ensures v.option in Ids(r.options, OptionKey) {
      var o :| o in db.options && OptionKey(o) == v.option;
      assert o in r.options;
    }
  }

  lemma AddQuestionKeepsOneVote(db: Db, q: Question, ids: seq<OptionId>, texts: seq<string>, now: Time)
    requires Consistent(db) && |ids| == |texts|
    requires q.id !in Ids(db.questions, QuestionKey)
    requires FreshOptionIds(db, ids)
    ensures OneVotePerSingleQuestion(AddQuestion(db, q, ids, texts, now))
  {
    var r := AddQuestion(db, q, ids, texts, now);
    AddQuestionKeepsKeys(db, q, ids, texts, now);
    // The old options keep their lookups, so the old votes reach the same questions.
    forall v | v in db.votes ensures OptionParent(r, v.option) == OptionParent(db, v.option) {
      var o :| o in db.options && OptionKey(o) == v.option;
      FindByUnique(db.options, OptionKey, o);
      FindByUnique(r.options, OptionKey, o);
    }
    forall v | v in db.votes ensures OptionParent(db, v.option) != Some(q.id) {
      var o :| o in db.options && OptionKey(o) == v.option;
      FindByUnique(db.options, OptionKey, o);
    }
  }

  /** Appending the created options to a table whose options all belong to other questions:
      the created question's options are exactly the created ones. */
  lemma NewOptionsOnlyOnes(prior: seq<PollOption>, created: seq<PollOption>, q: QuestionId,
                            ids: seq<OptionId>, texts: seq<string>, now: Time)
    requires |ids| == |texts| && created == NewOptions(q, ids, texts, now)
    requires forall o :: o in prior ==> o.question != q
    ensures Filter(prior + created, (o: PollOption) => o.question == q) == created
  {
    var keep := (o: PollOption) => o.question == q;
    FilterSkipsPrefix(prior, created, keep);
    FilterKeepsAll(created, keep);
  }

  /** `QuestionsSerializer.create`: looks the poll up by the route's `poll_pk`, creates the
      question under it, then one option per entry of `optionTexts`, in order. Fresh ids come
      in as `questionId` and `optionIds`, the creation time as `now`. */
  method CreateQuestion(store: Store, pollPk: Option<PollId>, text: string, mode: ChoiceMode,
                        optionTexts: seq<string>, questionId: QuestionId, optionIds: seq<OptionId>, now: Time)
    returns (r: Result<Question, QuestionError>)
    requires store.Valid()
    requires |optionIds| == |optionTexts|
    requires questionId !in Ids(store.questions, QuestionKey)
    requires FreshOptionIds(store.State(), optionIds)
    modifies store
    ensures store.Valid()
    ensures pollPk.None? || FindPoll(old(store.State()), pollPk.value).None? ==>
      r == Failure(InvalidPollId) && store.State() == old(store.State())
    ensures pollPk.Some? && FindPoll(old(store.State()), pollPk.value).Some? ==>
      && r == Success(Question(questionId, pollPk.value, text, mode, now))
      && store.State() == AddQuestion(old(store.State()), r.value, optionIds, optionTexts, now)
  {
    if pollPk.None? {
      return Failure(InvalidPollId);
    }
    var poll := FindPoll(store.State(), pollPk.value);
    if poll.None? {
      return Failure(InvalidPollId);
    }
    var q := Question(questionId, poll.value.id, text, mode, now);
    store.questions := store.questions + [q];
    var i := 0;
    while i < |optionTexts|
      invariant 0 <= i <= |optionTexts|
      invariant store.State() == old(store.State()).(questions := old(store.questions) + [q],
        options := old(store.options) + NewOptions(questionId, optionIds[..i], optionTexts[..i], now))
    {
      assert NewOptions(questionId, optionIds[..i + 1], optionTexts[..i + 1], now) ==
        NewOptions(questionId, optionIds[..i], optionTexts[..i], now) + [PollOption(optionIds[i], questionId, optionTexts[i], now)];
      store.options := store.options + [PollOption(optionIds[i], questionId, optionTexts[i], now)];
      i := i + 1;
    }
    assert optionIds[..i] == optionIds && optionTexts[..i] == optionTexts;
    AddQuestionKeepsConsistent(old(store.State()), q, optionIds, optionTexts, now);
    r := Success(q);
  }

  // ----- PollsSerializer -----

  /** Creating a poll needs a stored owner: an anonymous `request.user` cannot be `created_by`. */
  datatype PollError = AnonymousOwner

  /** The store after a poll was saved. */
  function InsertPoll(db: Db, p: Poll): Db
  {
    db.(polls := db.polls + [p])
  }

  /** Saving a poll with a fresh id and a stored owner keeps the store consistent. */
  lemma InsertPollKeepsConsistent(db: Db, p: Poll)
    requires Consistent(db)
    requires p.id !in Ids(db.polls, PollKey) && p.createdBy in Ids(db.users, UserKey)
    ensures Consistent(InsertPoll(db, p))
  {
    var r := InsertPoll(db, p);
    AppendUnique(db.polls, PollKey, p);
    forall q | q in r.questions ensures q.poll in Ids(r.polls, PollKey) {
      var p' :| p' in db.polls && PollKey(p') == q.poll;
      assert p' in r.polls;
    }
  }

  /** `PollsSerializer.create`, reached through `PollsViewSet.perform_create`: the new poll's owner
      is the requesting user. The submitted fields are `title`, `description`, `expiresAt` and
      `isClosed`; `isPublic` is not a serializer field and takes the model's default, given here. */
  method CreatePoll(store: Store, pr: Principal, title: string, description: string, expiresAt: Option<Time>,
                    isClosed: bool, isPublic: bool, pollId: PollId, now: Time)
    returns (r: Result<Poll, PollError>)
    requires store.Valid()
    requires pr.Authenticated? ==> pr.id in Ids(store.users, UserKey)
    requires pollId !in Ids(store.polls, PollKey)
    modifies store
    ensures store.Valid()
    ensures pr.Anonymous? ==> r == Failure(AnonymousOwner) && store.State() == old(store.State())
    ensures pr.Authenticated? ==>
      && r == Success(Poll(pollId, title, description, pr.id, now, expiresAt, isClosed, isPublic))
      && store.State() == InsertPoll(old(store.State()), r.value)
  {
    if pr.Anonymous? {
      return Failure(AnonymousOwner);
    }
    var p := Poll(pollId, title, description, pr.id, now, expiresAt, isClosed, isPublic);
    InsertPollKeepsConsistent(store.State(), p);
    store.polls := store.polls + [p];
    r := Success(p);
  }
}
