/** The records of the poll application (polls/models.py): users, polls, questions,
    options and votes, the store that holds them, the primary-key and foreign-key
    constraints the database enforces, the CASCADE deletion rules and the default
    orderings. */
module Models {
  import opened Wrappers
  import opened Seqs

  /** Primary keys stand for the UUIDs of the source; ids of different kinds never mix. */
  type UserId = nat
  type PollId = nat
  type QuestionId = nat
  type OptionId = nat
  type VoteId = nat

  /** A timestamp (an `auto_now_add` or `expires_at` value) in a fixed unit since an epoch. */
  type Time = int

  datatype User = User(id: UserId, isSuperuser: bool, createdAt: Time)

  /** A poll; `createdBy` is the owner, `expiresAt` is nullable. */
  datatype Poll = Poll(id: PollId, title: string, description: string, createdBy: UserId,
                       createdAt: Time, expiresAt: Option<Time>, isClosed: bool, isPublic: bool)

  /** `Questions.SINGLE` allows one vote per user per question; any other type allows more. */
  datatype ChoiceMode = Single | Multiple

  datatype Question = Question(id: QuestionId, poll: PollId, text: string,
                               questionType: ChoiceMode, createdAt: Time)

  datatype PollOption = PollOption(id: OptionId, question: QuestionId, text: string, createdAt: Time)

  datatype Vote = Vote(id: VoteId, option: OptionId, user: UserId, createdAt: Time)

  /** The requesting user (`request.user`): anonymous, or a stored user with its superuser flag. */
  datatype Principal = Anonymous | Authenticated(id: UserId, isSuperuser: bool)

  /** A snapshot of the five tables, each in insertion order. */
  datatype Db = Db(users: seq<User>, polls: seq<Poll>, questions: seq<Question>,
                   options: seq<PollOption>, votes: seq<Vote>)

  // Primary keys of the five tables.
  function UserKey(u: User): nat { u.id }
  function PollKey(p: Poll): nat { p.id }
  function QuestionKey(q: Question): nat { q.id }
  function OptionKey(o: PollOption): nat { o.id }
  function VoteKey(v: Vote): nat { v.id }

  /** Every primary key is unique within its table and every foreign key refers to a stored row. */
  ghost predicate Wellformed(db: Db)
  {
    && UniqueBy(db.users, UserKey)
    && UniqueBy(db.polls, PollKey)
    && UniqueBy(db.questions, QuestionKey)
    && UniqueBy(db.options, OptionKey)
    && UniqueBy(db.votes, VoteKey)
    && (forall p :: p in db.polls ==> p.createdBy in Ids(db.users, UserKey))
    && (forall q :: q in db.questions ==> q.poll in Ids(db.polls, PollKey))
    && (forall o :: o in db.options ==> o.question in Ids(db.questions, QuestionKey))
    && (forall v :: v in db.votes ==> v.option in Ids(db.options, OptionKey) && v.user in Ids(db.users, UserKey))
  }

  function FindPoll(db: Db, id: PollId): Option<Poll> { FindBy(db.polls, PollKey, id) }
  function FindQuestion(db: Db, id: QuestionId): Option<Question> { FindBy(db.questions, QuestionKey, id) }
  function FindOption(db: Db, id: OptionId): Option<PollOption> { FindBy(db.options, OptionKey, id) }

  /** The question an option belongs to, following `Options.question_id`. */
  function OptionParent(db: Db, id: OptionId): Option<QuestionId>
  {
    match FindOption(db, id)
    case Some(o) => Some(o.question)
    case None => None
  }

  /** No user holds two votes on the options of one SINGLE-choice question. */
  ghost predicate OneVotePerSingleQuestion(db: Db)
  {
    forall v1, v2, q ::
      v1 in db.votes && v2 in db.votes && q in db.questions && q.questionType == Single &&
      OptionParent(db, v1.option) == Some(q.id) && OptionParent(db, v2.option) == Some(q.id) &&
      v1.user == v2.user
      ==> v1 == v2
  }

  /** The invariant every operation on the store keeps. */
  ghost predicate Consistent(db: Db)
  {
    Wellformed(db) && OneVotePerSingleQuestion(db)
  }

  // ----- Default orderings (Meta.ordering) -----

  /** Sort key for `ordering = ['-created_at']` on polls: newer polls come first. */
  function PollAge(p: Poll): int { -p.createdAt }

  /** Sort key for `order_by('-created_at')` on questions. */
  function QuestionAge(q: Question): int { -q.createdAt }

  /** Sort key for `ordering = ['question_id', 'option_id']` among the options of one question. */
  function OptionOrder(o: PollOption): int { o.id }

  /** The polls of `ps` in the default poll ordering. */
  function NewestPollsFirst(ps: seq<Poll>): (r: seq<Poll>)
    ensures multiset(r) == multiset(ps)
    ensures forall p :: p in r <==> p in ps
    ensures forall i, j :: 0 <= i < j < |r| ==> r[i].createdAt >= r[j].createdAt
  {
    var r := SortBy(ps, PollAge);
    SortByPermutes(ps, PollAge);
    assert forall i, j :: 0 <= i < j < |r| ==> PollAge(r[i]) <= PollAge(r[j]);
    r
  }

  // ----- `poll.close()` -----

  /** Poll `p` as `poll.close()` leaves it when the closed poll is `id`. */
  function Closing(id: PollId, p: Poll): Poll
  {
    if p.id == id then p.(isClosed := true) else p
  }

  /** The poll table after `poll.close()` saved the poll `id` with `is_closed` set: looking up
      any poll by its id finds what it found before, closed exactly when it is `id`; the other
      tables are untouched. */
  function CloseIn(db: Db, id: PollId): (r: Db)
    ensures r.users == db.users && r.questions == db.questions
    ensures r.options == db.options && r.votes == db.votes
    ensures Ids(r.polls, PollKey) == Ids(db.polls, PollKey)
    ensures forall k ::
              FindPoll(r, k) == (match FindPoll(db, k)
                                 case Some(p) => Some(if k == id then p.(isClosed := true) else p)
                                 case None => None)
  {
    var polls := seq(|db.polls|, i requires 0 <= i < |db.polls| => Closing(id, db.polls[i]));
    var r := db.(polls := polls);
    assert forall i :: 0 <= i < |polls| ==> polls[i] == Closing(id, db.polls[i]) && PollKey(polls[i]) == PollKey(db.polls[i]);
    forall k ensures FindPoll(r, k) == match FindPoll(db, k) case Some(p) => Some(Closing(id, p)) case None => None {
      FindByMapped(db.polls, polls, PollKey, p => Closing(id, p), k);
    }
    assert Ids(polls, PollKey) == Ids(db.polls, PollKey) by {
      forall k ensures k in Ids(polls, PollKey) <==> k in Ids(db.polls, PollKey) {
        FindByMapped(db.polls, polls, PollKey, p => Closing(id, p), k);
      }
    }
    r
  }

  // ----- CASCADE deletion -----

  /** Ids of the questions of the polls `ps`. */
  function QuestionsOfPolls(db: Db, ps: set<PollId>): set<QuestionId>
  {
    set q | q in db.questions && q.poll in ps :: q.id
  }

  /** Ids of the options of the questions `qs`. */
  function OptionsOfQuestions(db: Db, qs: set<QuestionId>): set<OptionId>
  {
    set o | o in db.options && o.question in qs :: o.id
  }

  /** Ids of the polls created by `u`. */
  function PollsOfUser(db: Db, u: UserId): set<PollId>
  {
    set p | p in db.polls && p.createdBy == u :: p.id
  }

  /** Deletes the votes on the options `os` (`Votes.option_id` is CASCADE). */
  function DropVotesOf(db: Db, os: set<OptionId>): Db
  {
    db.(votes := Filter(db.votes, (v: Vote) => v.option !in os))
  }

  /** Deletes the options of the questions `qs` (`Options.question_id` is CASCADE), and their votes. */
  function DropOptionsOf(db: Db, qs: set<QuestionId>): Db
  {
    var gone := OptionsOfQuestions(db, qs);
    DropVotesOf(db.(options := Filter(db.options, (o: PollOption) => o.question !in qs)), gone)
  }

  /** Deletes the questions of the polls `ps` (`Questions.poll_id` is CASCADE), and everything under them. */
  function DropQuestionsOf(db: Db, ps: set<PollId>): Db
  {
    var gone := QuestionsOfPolls(db, ps);
    DropOptionsOf(db.(questions := Filter(db.questions, (q: Question) => q.poll !in ps)), gone)
  }

  /** Deleting a poll deletes its questions, their options and the votes on those options. */
  function DeletePoll(db: Db, id: PollId): (r: Db)
    ensures r.users == db.users
    ensures forall p :: p in r.polls <==> p in db.polls && p.id != id
    ensures forall q :: q in r.questions <==> q in db.questions && q.poll != id
    ensures forall o :: o in r.options <==> o in db.options && o.question !in QuestionsOfPolls(db, {id})
    ensures forall v :: v in r.votes <==>
      v in db.votes && v.option !in OptionsOfQuestions(db, QuestionsOfPolls(db, {id}))
  {
    DropQuestionsOf(db.(polls := Filter(db.polls, (p: Poll) => p.id != id)), {id})
  }

  /** Deleting a question deletes its options and the votes on them. */
  function DeleteQuestion(db: Db, id: QuestionId): (r: Db)
    ensures r.users == db.users && r.polls == db.polls
    ensures forall q :: q in r.questions <==> q in db.questions && q.id != id
    ensures forall o :: o in r.options <==> o in db.options && o.question != id
    ensures forall v :: v in r.votes <==> v in db.votes && v.option !in OptionsOfQuestions(db, {id})
  {
    DropOptionsOf(db.(questions := Filter(db.questions, (q: Question) => q.id != id)), {id})
  }

  /** Deleting an option deletes the votes on it. */
  function DeleteOption(db: Db, id: OptionId): (r: Db)
    ensures r.users == db.users && r.polls == db.polls && r.questions == db.questions
    ensures forall o :: o in r.options <==> o in db.options && o.id != id
    ensures forall v :: v in r.votes <==> v in db.votes && v.option != id
  {
    DropVotesOf(db.(options := Filter(db.options, (o: PollOption) => o.id != id)), {id})
  }

  /** Deleting a user deletes the polls they created (with everything under them) and the votes they cast. */
  function DeleteUser(db: Db, id: UserId): (r: Db)
    ensures forall u :: u in r.users <==> u in db.users && u.id != id
    ensures forall p :: p in r.polls <==> p in db.polls && p.createdBy != id
    ensures forall q :: q in r.questions <==> q in db.questions && q.poll !in PollsOfUser(db, id)
    ensures forall o :: o in r.options <==>
      o in db.options && o.question !in QuestionsOfPolls(db, PollsOfUser(db, id))
    ensures forall v :: v in r.votes <==> (v in db.votes && v.user != id &&
      v.option !in OptionsOfQuestions(db, QuestionsOfPolls(db, PollsOfUser(db, id))))
  {
    var rest := DropQuestionsOf(db.(polls := Filter(db.polls, (p: Poll) => p.createdBy != id)), PollsOfUser(db, id));
    rest.(users := Filter(rest.users, (u: User) => u.id != id),
          votes := Filter(rest.votes, (v: Vote) => v.user != id))
  }

  /** A store cut down from a consistent one, that keeps its keys and references, keeps the
      one-vote rule: the votes that remain still reach the same questions. */
  lemma ShrinkKeepsOneVote(db: Db, r: Db)
    requires Consistent(db) && Wellformed(r)
    requires forall q :: q in r.questions ==> q in db.questions
    requires forall o :: o in r.options ==> o in db.options
    requires forall v :: v in r.votes ==> v in db.votes
    ensures OneVotePerSingleQuestion(r)
  {
    forall v | v in r.votes
      ensures OptionParent(r, v.option) == OptionParent(db, v.option)
    {
      var o :| o in r.options && OptionKey(o) == v.option;
      FindByUnique(r.options, OptionKey, o);
      FindByUnique(db.options, OptionKey, o);
    }
  }

  /** Deleting a poll leaves no dangling reference and keeps the one-vote rule. */
  lemma DeletePollKeepsConsistent(db: Db, id: PollId)
    requires Consistent(db)
    ensures Consistent(DeletePoll(db, id))
  {
    var r := DeletePoll(db, id);
    var qs := QuestionsOfPolls(db, {id});
    var os := OptionsOfQuestions(db, qs);
    FilterUnique(db.polls, (p: Poll) => p.id != id, PollKey);
    var ps: set<PollId> := {id};
    FilterUnique(db.questions, (q: Question) => q.poll !in ps, QuestionKey);
    FilterUnique(db.options, (o: PollOption) => o.question !in qs, OptionKey);
    FilterUnique(db.votes, (v: Vote) => v.option !in os, VoteKey);
    forall q | q in r.questions ensures q.poll in Ids(r.polls, PollKey) {
      var p :| p in db.polls && PollKey(p) == q.poll;
      assert p in r.polls;
    }
    forall o | o in r.options ensures o.question in Ids(r.questions, QuestionKey) {
      var q :| q in db.questions && QuestionKey(q) == o.question;
      assert q in r.questions;
    }
    forall v | v in r.votes ensures v.option in Ids(r.options, OptionKey) {
      var o :| o in db.options && OptionKey(o) == v.option;
      assert o in r.options;
    }
    ShrinkKeepsOneVote(db, r);
  }

  /** Deleting a question leaves no dangling reference and keeps the one-vote rule. */
  lemma DeleteQuestionKeepsConsistent(db: Db, id: QuestionId)
    requires Consistent(db)
    ensures Consistent(DeleteQuestion(db, id))
  {
    var r := DeleteQuestion(db, id);
    var qs: set<QuestionId> := {id};
    var os := OptionsOfQuestions(db, qs);
    FilterUnique(db.questions, (q: Question) => q.id != id, QuestionKey);
    FilterUnique(db.options, (o: PollOption) => o.question !in qs, OptionKey);
    FilterUnique(db.votes, (v: Vote) => v.option !in os, VoteKey);
    forall o | o in r.options ensures o.question in Ids(r.questions, QuestionKey) {
      var q :| q in db.questions && QuestionKey(q) == o.question;
      assert q in r.questions;
    }
    forall v | v in r.votes ensures v.option in Ids(r.options, OptionKey) {
      var o :| o in db.options && OptionKey(o) == v.option;
      assert o in r.options;
    }
    ShrinkKeepsOneVote(db, r);
  }

  /** Deleting an option leaves no dangling reference and keeps the one-vote rule. */
  lemma DeleteOptionKeepsConsistent(db: Db, id: OptionId)
    requires Consistent(db)
    ensures Consistent(DeleteOption(db, id))
  {
    var r := DeleteOption(db, id);
    FilterUnique(db.options, (o: PollOption) => o.id != id, OptionKey);
    var os: set<OptionId> := {id};
    FilterUnique(db.votes, (v: Vote) => v.option !in os, VoteKey);
    forall v | v in r.votes ensures v.option in Ids(r.options, OptionKey) {
      var o :| o in db.options && OptionKey(o) == v.option;
      assert o in r.options;
    }
    ShrinkKeepsOneVote(db, r);
  }

  /** After deleting a user every table still has unique primary keys. */
  lemma DeleteUserKeepsKeys(db: Db, id: UserId)
    requires Wellformed(db)
    ensures var r := DeleteUser(db, id);
      UniqueBy(r.users, UserKey) && UniqueBy(r.polls, PollKey) && UniqueBy(r.questions, QuestionKey) &&
      UniqueBy(r.options, OptionKey) && UniqueBy(r.votes, VoteKey)
  {
    var ps := PollsOfUser(db, id);
    var qs := QuestionsOfPolls(db, ps);
    var os := OptionsOfQuestions(db, qs);
    var rest := DropQuestionsOf(db.(polls := Filter(db.polls, (p: Poll) => p.createdBy != id)), ps);
    FilterUnique(rest.users, (u: User) => u.id != id, UserKey);
    FilterUnique(db.polls, (p: Poll) => p.createdBy != id, PollKey);
    FilterUnique(db.questions, (q: Question) => q.poll !in ps, QuestionKey);
    FilterUnique(db.options, (o: PollOption) => o.question !in qs, OptionKey);
    FilterUnique(db.votes, (v: Vote) => v.option !in os, VoteKey);
    FilterUnique(rest.votes, (v: Vote) => v.user != id, VoteKey);
  }

  /** After deleting a user every remaining foreign key still refers to a remaining row. */
  lemma DeleteUserKeepsReferences(db: Db, id: UserId)
    requires Wellformed(db)
    ensures var r := DeleteUser(db, id);
      && (forall p :: p in r.polls ==> p.createdBy in Ids(r.users, UserKey))
      && (forall q :: q in r.questions ==> q.poll in Ids(r.polls, PollKey))
      && (forall o :: o in r.options ==> o.question in Ids(r.questions, QuestionKey))
      && (forall v :: v in r.votes ==> v.option in Ids(r.options, OptionKey) && v.user in Ids(r.users, UserKey))
  {
    var r := DeleteUser(db, id);
    forall p | p in r.polls ensures p.createdBy in Ids(r.users, UserKey) {
      var u :| u in db.users && UserKey(u) == p.createdBy;
      assert u in r.users;
    }
    forall q | q in r.questions ensures q.poll in Ids(r.polls, PollKey) {
      var p :| p in db.polls && PollKey(p) == q.poll;
      assert p in r.polls;
    }
    forall o | o in r.options ensures o.question in Ids(r.questions, QuestionKey) {
      var q :| q in db.questions && QuestionKey(q) == o.question;
      assert q in r.questions;
    }
    forall v | v in r.votes ensures v.option in Ids(r.options, OptionKey) && v.user in Ids(r.users, UserKey) {
      var o :| o in db.options && OptionKey(o) == v.option;
      assert o in r.options;
      var u :| u in db.users && UserKey(u) == v.user;
      assert u in r.users;
    }
  }

  /** Deleting a user leaves no dangling reference and keeps the one-vote rule. */
  lemma DeleteUserKeepsConsistent(db: Db, id: UserId)
    requires Consistent(db)
    ensures Consistent(DeleteUser(db, id))
  {
    DeleteUserKeepsKeys(db, id);
    DeleteUserKeepsReferences(db, id);
    ShrinkKeepsOneVote(db, DeleteUser(db, id));
  }

  // ----- The store -----

  /** The database: the five tables, changed in place by the services. */
  class Store {
    var users: seq<User>
    var polls: seq<Poll>
    var questions: seq<Question>
    var options: seq<PollOption>
    var votes: seq<Vote>

    function State(): Db
      reads this
    {
      Db(users, polls, questions, options, votes)
    }

    ghost predicate Valid()
      reads this
    {
      Consistent(State())
    }

    constructor (initial: Db)
      requires Consistent(initial)
      ensures Valid() && State() == initial
    {
      users, polls, questions, options, votes :=
        initial.users, initial.polls, initial.questions, initial.options, initial.votes;
    }
  }
}
