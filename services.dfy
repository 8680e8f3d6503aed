/** The services the views call (polls/services.py): casting a vote, closing a poll and
    computing a poll's results. */
module Services {
  import opened Wrappers
  import opened Seqs
  import opened Models
  import opened Serializers
  import opened Permissions

  // ----- handle_vote -----

  /** `handle_vote`: validate the submitted option for `question` on behalf of `user`, and store
      the vote only when validation passed. `question` is the one the view resolved; `voteId` is
      the fresh id of `uuid.uuid4()` and `now` the creation time. */
  method HandleVote(store: Store, user: UserId, question: Question, optionId: OptionId, voteId: VoteId, now: Time)
    returns (r: Result<Vote, VoteError>)
    requires store.Valid() && question in store.questions
    requires user in Ids(store.users, UserKey) && voteId !in Ids(store.votes, VoteKey)
    modifies store
    ensures store.Valid()
    ensures var verdict := Admit(old(store.State()), user, question, optionId, now);
      && (verdict.Failure? ==> r == Failure(verdict.error) && store.State() == old(store.State()))
      && (verdict.Success? ==>
            r == Success(Vote(voteId, optionId, user, now)) &&
            store.State() == InsertVote(old(store.State()), r.value))
  {
    var verdict := Admit(store.State(), user, question, optionId, now);
    if verdict.Failure? {
      return Failure(verdict.error);
    }
    AdmitIffAdmissible(store.State(), user, question, optionId, now);
    var v := CreateVote(store, question, verdict.value, user, voteId, now);
    r := Success(v);
  }

  // ----- close_poll -----

  datatype CloseMessage = AlreadyClosed | ClosedNow

  function CloseMessageText(m: CloseMessage): string
  {
    match m
    case AlreadyClosed => "Poll already closed."
    case ClosedNow => "Poll closed successfully."
  }

  /** `PermissionDenied` raised for anyone but the poll's creator. */
  datatype CloseError = NotOwner

  function CloseErrorMessage(e: CloseError): string
  {
    "Not allowed to close this poll."
  }

  /** The decision of `close_poll`: the owner check first, then the already-closed check. */
  function CloseDecision(p: Poll, pr: Principal): Result<CloseMessage, CloseError>
  {
    if !IsOwner(pr, p) then Failure(NotOwner)
    else if p.isClosed then Success(AlreadyClosed)
    else Success(ClosedNow)
  }

  /** The store after `close_poll` on `p`: only a fresh close changes it. */
  function AfterClose(db: Db, p: Poll, pr: Principal): Db
  {
    if CloseDecision(p, pr) == Success(ClosedNow) then CloseIn(db, p.id) else db
  }

  /** `close_poll(poll, user)`: returns the message or raises for a non-owner; on a fresh close
      the poll's `is_closed` is set by `poll.close()`. */
  method ClosePoll(store: Store, p: Poll, pr: Principal) returns (r: Result<CloseMessage, CloseError>)
    requires store.Valid() && p in store.polls
    modifies store
    ensures store.Valid()
    ensures r == CloseDecision(p, pr)
    ensures store.State() == AfterClose(old(store.State()), p, pr)
  {
    if !IsOwner(pr, p) {
      return Failure(NotOwner);
    }
    if p.isClosed {
      return Success(AlreadyClosed);
    }
    CloseKeepsConsistent(store.State(), p.id);
    store.polls := CloseIn(store.State(), p.id).polls;
    r := Success(ClosedNow);
  }

  /** Setting a poll's closed flag keeps the store consistent. */
  lemma CloseKeepsConsistent(db: Db, id: PollId)
    requires Consistent(db)
    ensures Consistent(CloseIn(db, id))
  {
    var r := CloseIn(db, id);
    forall i, j | 0 <= i < j < |r.polls| ensures PollKey(r.polls[i]) != PollKey(r.polls[j]) {
      assert PollKey(db.polls[i]) != PollKey(db.polls[j]);
    }
    forall q | q in r.questions ensures q.poll in Ids(r.polls, PollKey) {
      var p :| p in db.polls && PollKey(p) == q.poll;
      var k :| 0 <= k < |db.polls| && db.polls[k] == p;
      assert r.polls[k] in r.polls && PollKey(r.polls[k]) == q.poll;
    }
    forall p | p in r.polls ensures p.createdBy in Ids(r.users, UserKey) {
      var k :| 0 <= k < |r.polls| && r.polls[k] == p;
      assert db.polls[k].createdBy == p.createdBy;
    }
  }

  /** A non-owner is refused and nothing changes, whether or not the poll is already closed. */
  lemma NonOwnerCannotClose(db: Db, p: Poll, pr: Principal)
    requires !IsOwner(pr, p)
    ensures CloseDecision(p, pr) == Failure(NotOwner) && AfterClose(db, p, pr) == db
  {
  }

  /** Closing is idempotent: once the owner has closed the poll, closing it again reports
      "Poll already closed." and changes nothing. */
  lemma CloseIdempotent(db: Db, p: Poll, pr: Principal)
    requires Consistent(db) && p in db.polls
    requires IsOwner(pr, p)
    ensures var db' := AfterClose(db, p, pr);
      && FindPoll(db', p.id).Some?
      && CloseDecision(FindPoll(db', p.id).value, pr) == Success(AlreadyClosed)
      && AfterClose(db', FindPoll(db', p.id).value, pr) == db'
  {
    var db' := AfterClose(db, p, pr);
    var k :| 0 <= k < |db.polls| && db.polls[k] == p;
    var p' := db'.polls[k];
    assert p' == p.(isClosed := true) || (p.isClosed && p' == p);
    if !p.isClosed {
      CloseKeepsConsistent(db, p.id);
    }
    assert p' in db'.polls;
    FindByUnique(db'.polls, PollKey, p');
  }

  /** The closed flag is never cleared: a poll closed before a close is still closed after it,
      and a fresh close by the owner leaves the poll closed. */
  lemma CloseIsMonotonic(db: Db, p: Poll, pr: Principal)
    ensures var db' := AfterClose(db, p, pr);
      && |db'.polls| == |db.polls|
      && (forall i :: 0 <= i < |db.polls| ==> db'.polls[i].id == db.polls[i].id)
      && (forall i :: 0 <= i < |db.polls| && db.polls[i].isClosed ==> db'.polls[i].isClosed)
      && (CloseDecision(p, pr).Success? ==> forall i :: 0 <= i < |db.polls| && db.polls[i] == p ==> db'.polls[i].isClosed)
  {
  }

  /** Once its owner has closed a poll, no vote on any of its questions is admitted: the option
      check, the duplicate check or the closed check refuses it, and a vote that passes the
      first two is refused because voting is closed. */
  lemma NoVoteAfterClose(db: Db, p: Poll, pr: Principal, user: UserId, question: Question,
                         optionId: OptionId, now: Time)
    requires Consistent(db) && p in db.polls
    requires IsOwner(pr, p)
    requires question in db.questions && question.poll == p.id
    ensures Admit(AfterClose(db, p, pr), user, question, optionId, now).Failure?
    ensures (exists o :: o in db.options && o.id == optionId && o.question == question.id) &&
            !(question.questionType == Single && HasVoted(db, user, question.id)) ==>
            Admit(AfterClose(db, p, pr), user, question, optionId, now) == Failure(VotingClosed)
  {
    var db' := AfterClose(db, p, pr);
    FindByUnique(db.polls, PollKey, p);
    FindByUnique(db.questions, QuestionKey, question);
    if p.isClosed {
      assert db' == db;
    } else {
      assert db' == CloseIn(db, p.id);
      assert FindPoll(db', p.id) == Some(p.(isClosed := true));
    }
    ClosedPollRefusesVotes(db', user, question, optionId, now);
  }

  /** A question whose poll is found closed takes no vote; once the option and duplicate checks
      pass, the refusal is `VotingClosed`. */
  lemma ClosedPollRefusesVotes(db: Db, user: UserId, question: Question, optionId: OptionId, now: Time)
    requires UniqueBy(db.options, OptionKey)
    requires FindQuestion(db, question.id) == Some(question)
    requires FindPoll(db, question.poll).Some? && FindPoll(db, question.poll).value.isClosed
    ensures Admit(db, user, question, optionId, now).Failure?
    ensures (exists o :: o in db.options && o.id == optionId && o.question == question.id) &&
            !(question.questionType == Single && HasVoted(db, user, question.id)) ==>
            Admit(db, user, question, optionId, now) == Failure(VotingClosed)
  {
    if o :| o in db.options && o.id == optionId && o.question == question.id {
      FindByUnique(db.options, OptionKey, o);
    }
  }

  // ----- handle_result -----

  datatype OptionResult = OptionResult(optionId: OptionId, optionText: string, voteCount: nat, percentage: real)
  datatype QuestionResult = QuestionResult(questionId: QuestionId, questionText: string, totalVotes: nat, options: seq<OptionResult>)
  datatype PollResults = PollResults(pollId: PollId, pollTitle: string, questions: seq<QuestionResult>)

  /** `Count('votes')` for one option: the votes that reference it. */
  function VoteCount(votes: seq<Vote>, id: OptionId): (r: nat)
    ensures r <= |votes|
    ensures r == 0 <==> forall v :: v in votes ==> v.option != id
  {
    if votes == [] then 0
    else
      assert votes == [votes[0]] + votes[1..];
      (if votes[0].option == id then 1 else 0) + VoteCount(votes[1..], id)
  }

  /** An option's count is the number of stored votes that reference it. */
  lemma {:induction false} VoteCountIsReferences(votes: seq<Vote>, id: OptionId)
    ensures VoteCount(votes, id) == |Filter(votes, (v: Vote) => v.option == id)|
  {
    if votes != [] {
      VoteCountIsReferences(votes[1..], id);
    }
  }

  /** `sum(opt.vote_count for opt in options)`. */
  function TotalVotes(votes: seq<Vote>, os: seq<PollOption>): nat
  {
    if os == [] then 0 else VoteCount(votes, os[0].id) + TotalVotes(votes, os[1..])
  }

  /** The share of `count` in `total` in percent, 0 when nobody voted; the rounding to two
      decimals is not modelled. */
  function Percentage(count: nat, total: nat): real
  {
    if total > 0 then (count as real) / (total as real) * 100.0 else 0.0
  }

  /** The options of question `qid` in their default ordering (by option id). */
  function QuestionOptions(db: Db, qid: QuestionId): seq<PollOption>
  {
    SortBy(Filter(db.options, (o: PollOption) => o.question == qid), OptionOrder)
  }

  function OptionResultOf(votes: seq<Vote>, o: PollOption, total: nat): OptionResult
  {
    var c := VoteCount(votes, o.id);
    OptionResult(o.id, o.text, c, Percentage(c, total))
  }

  /** One entry per option of `os`, in the same order. */
  function OptionResults(votes: seq<Vote>, os: seq<PollOption>, total: nat): seq<OptionResult>
  {
    if os == [] then [] else [OptionResultOf(votes, os[0], total)] + OptionResults(votes, os[1..], total)
  }

  function QuestionResultOf(db: Db, q: Question): QuestionResult
  {
    var os := QuestionOptions(db, q.id);
    var total := TotalVotes(db.votes, os);
    QuestionResult(q.id, q.text, total, OptionResults(db.votes, os, total))
  }

  /** The questions of poll `pid`, newest first (`order_by('-created_at')`). */
  function PollQuestions(db: Db, pid: PollId): seq<Question>
  {
    SortBy(Filter(db.questions, (q: Question) => q.poll == pid), QuestionAge)
  }

  /** One entry per question of `qs`, in the same order. */
  function QuestionResults(db: Db, qs: seq<Question>): seq<QuestionResult>
  {
    if qs == [] then [] else QuestionResults(db, qs[..|qs| - 1]) + [QuestionResultOf(db, qs[|qs| - 1])]
  }

  /** The whole results document of `handle_result(poll)`. */
  function Results(db: Db, p: Poll): PollResults
  {
    PollResults(p.id, p.title, QuestionResults(db, PollQuestions(db, p.id)))
  }

  /** `handle_result(poll)`: one question entry per loop iteration. */
  method HandleResult(store: Store, p: Poll) returns (r: PollResults)
    ensures r == Results(store.State(), p)
  {
    var db := store.State();
    var qs := PollQuestions(db, p.id);
    var entries: seq<QuestionResult> := [];
    for i := 0 to |qs|
      invariant entries == QuestionResults(db, qs[..i])
    {
      assert qs[..i + 1][..i] == qs[..i];
      entries := entries + [QuestionResultOf(db, qs[i])];
    }
    assert qs[..|qs|] == qs;
    r := PollResults(p.id, p.title, entries);
  }

  lemma {:induction false} QuestionResultsPointwise(db: Db, qs: seq<Question>)
    ensures var r := QuestionResults(db, qs);
      |r| == |qs| && forall k :: 0 <= k < |qs| ==> r[k] == QuestionResultOf(db, qs[k])
  {
    if qs != [] {
      var init := qs[..|qs| - 1];
      QuestionResultsPointwise(db, init);
      var r := QuestionResults(db, qs);
      assert r == QuestionResults(db, init) + [QuestionResultOf(db, qs[|qs| - 1])];
      forall k | 0 <= k < |qs| ensures r[k] == QuestionResultOf(db, qs[k]) {
        if k < |init| {
          assert init[k] == qs[k];
        }
      }
    }
  }

  // ----- properties of the results -----

  /** The results carry the poll's own id and title and one entry per listed question, in
      listing order. */
  lemma ResultsListPollQuestions(db: Db, p: Poll)
    ensures var r := Results(db, p); var qs := PollQuestions(db, p.id);
      && r.pollId == p.id && r.pollTitle == p.title
      && |r.questions| == |qs|
      && (forall k :: 0 <= k < |qs| ==> r.questions[k].questionId == qs[k].id && r.questions[k].questionText == qs[k].text)
  {
    QuestionResultsPointwise(db, PollQuestions(db, p.id));
  }

  /** The listed questions are every question of the poll, each as often as the table holds it,
      and no other, newest first. */
  lemma PollQuestionsExact(db: Db, pid: PollId)
    ensures var qs := PollQuestions(db, pid);
      && (forall q :: q in qs <==> q in db.questions && q.poll == pid)
      && (forall q: Question :: q.poll == pid ==> multiset(qs)[q] == multiset(db.questions)[q])
      && (forall i, j :: 0 <= i < j < |qs| ==> qs[i].createdAt >= qs[j].createdAt)
  {
    var qs := PollQuestions(db, pid);
    SortByPermutes(Filter(db.questions, (q: Question) => q.poll == pid), QuestionAge);
    FilterMultiset(db.questions, (q: Question) => q.poll == pid);
    forall i, j | 0 <= i < j < |qs| ensures qs[i].createdAt >= qs[j].createdAt {
      assert QuestionAge(qs[i]) <= QuestionAge(qs[j]);
    }
  }

  /** The options of a question's entry are exactly the question's options, in option order;
      when option ids are unique, each option is listed once, in strictly increasing id order. */
  lemma ResultsListQuestionOptions(db: Db, q: Question)
    ensures var r := QuestionResultOf(db, q); var os := QuestionOptions(db, q.id);
      && |r.options| == |os|
      && (forall k :: 0 <= k < |os| ==>
            r.options[k].optionId == os[k].id && r.options[k].optionText == os[k].text &&
            r.options[k].voteCount == VoteCount(db.votes, os[k].id))
      && (forall o :: o in os <==> o in db.options && o.question == q.id)
      && (forall i, j :: 0 <= i < j < |os| ==> os[i].id <= os[j].id)
      && (UniqueBy(db.options, OptionKey) ==> forall i, j :: 0 <= i < j < |os| ==> os[i].id < os[j].id)
  {
    var os := QuestionOptions(db, q.id);
    OptionResultsPointwise(db.votes, os, TotalVotes(db.votes, os));
    forall i, j | 0 <= i < j < |os| ensures os[i].id <= os[j].id {
      assert OptionOrder(os[i]) <= OptionOrder(os[j]);
    }
    if UniqueBy(db.options, OptionKey) {
      var mine := Filter(db.options, (o: PollOption) => o.question == q.id);
      FilterUnique(db.options, (o: PollOption) => o.question == q.id, OptionKey);
      SortByPermutes(mine, OptionOrder);
      PermutationKeepsUnique(mine, os, OptionKey);
      forall i, j | 0 <= i < j < |os| ensures os[i].id < os[j].id {
        assert OptionOrder(os[i]) <= OptionOrder(os[j]);
        assert OptionKey(os[i]) != OptionKey(os[j]);
      }
    }
  }

  lemma {:induction false} OptionResultsPointwise(votes: seq<Vote>, os: seq<PollOption>, total: nat)
    ensures var r := OptionResults(votes, os, total);
      && |r| == |os|
      && forall k :: 0 <= k < |os| ==> r[k] == OptionResultOf(votes, os[k], total)
  {
    if os != [] {
      OptionResultsPointwise(votes, os[1..], total);
    }
  }

  /** Sum of the vote counts listed in `rs`. */
  function SumCounts(rs: seq<OptionResult>): nat
  {
    if rs == [] then 0 else rs[0].voteCount + SumCounts(rs[1..])
  }

  /** Sum of the percentages listed in `rs`. */
  function SumPercentages(rs: seq<OptionResult>): real
  {
    if rs == [] then 0.0 else rs[0].percentage + SumPercentages(rs[1..])
  }

  /** A question's `total_votes` is the sum of the vote counts it lists. */
  lemma TotalIsSumOfCounts(db: Db, q: Question)
    ensures QuestionResultOf(db, q).totalVotes == SumCounts(QuestionResultOf(db, q).options)
  {
    var os := QuestionOptions(db, q.id);
    SumCountsOfResults(db.votes, os, TotalVotes(db.votes, os));
  }

  lemma {:induction false} SumCountsOfResults(votes: seq<Vote>, os: seq<PollOption>, total: nat)
    ensures SumCounts(OptionResults(votes, os, total)) == TotalVotes(votes, os)
  {
    if os != [] {
      SumCountsOfResults(votes, os[1..], total);
      var r := OptionResults(votes, os, total);
      assert r[1..] == OptionResults(votes, os[1..], total);
    }
  }

  /** Reordering the options does not change their total: inserting one option adds its count. */
  lemma {:induction false} TotalVotesInsert(votes: seq<Vote>, x: PollOption, os: seq<PollOption>, key: PollOption -> int)
    requires SortedBy(os, key)
    ensures TotalVotes(votes, InsertBy(x, os, key)) == VoteCount(votes, x.id) + TotalVotes(votes, os)
  {
    if os != [] && key(x) > key(os[0]) {
      assert os == [os[0]] + os[1..];
      TotalVotesInsert(votes, x, os[1..], key);
      var r := InsertBy(x, os, key);
      assert r[1..] == InsertBy(x, os[1..], key);
    }
  }

  lemma {:induction false} TotalVotesSort(votes: seq<Vote>, os: seq<PollOption>, key: PollOption -> int)
    ensures TotalVotes(votes, SortBy(os, key)) == TotalVotes(votes, os)
  {
    if os != [] {
      TotalVotesSort(votes, os[1..], key);
      TotalVotesInsert(votes, os[0], SortBy(os[1..], key), key);
    }
  }

  /** The number of votes in `votes` cast for an option whose id is in `ids`. */
  function CountIn(votes: seq<Vote>, ids: set<OptionId>): nat
  {
    if votes == [] then 0 else (if votes[0].option in ids then 1 else 0) + CountIn(votes[1..], ids)
  }

  lemma {:induction false} CountInAdd(votes: seq<Vote>, ids: set<OptionId>, id: OptionId)
    requires id !in ids
    ensures CountIn(votes, ids + {id}) == CountIn(votes, ids) + VoteCount(votes, id)
  {
    if votes != [] {
      CountInAdd(votes[1..], ids, id);
    }
  }

  /** Over options with distinct ids, the summed counts are the votes for any of them. */
  lemma {:induction false} TotalVotesIsCountIn(votes: seq<Vote>, os: seq<PollOption>)
    requires UniqueBy(os, OptionKey)
    ensures TotalVotes(votes, os) == CountIn(votes, Ids(os, OptionKey))
  {
    if os == [] {
      assert Ids(os, OptionKey) == {};
      CountInEmpty(votes);
    } else {
      var rest := os[1..];
      UniqueTail(os, OptionKey);
      IdsCons(os, OptionKey);
      TotalVotesIsCountIn(votes, rest);
      assert OptionKey(os[0]) == os[0].id;
      assert Ids(os, OptionKey) == Ids(rest, OptionKey) + {os[0].id};
      assert TotalVotes(votes, os) == VoteCount(votes, os[0].id) + TotalVotes(votes, rest);
      CountInAdd(votes, Ids(rest, OptionKey), os[0].id);
    }
  }

  lemma {:induction false} CountInEmpty(votes: seq<Vote>)
    ensures CountIn(votes, {}) == 0
  {
    if votes != [] {
      CountInEmpty(votes[1..]);
    }
  }

  /** Whether vote `v` was cast on an option of question `qid`. */
  predicate OnQuestion(db: Db, qid: QuestionId, v: Vote)
  {
    OptionParent(db, v.option) == Some(qid)
  }

  /** The number of stored votes cast on an option of question `qid`. */
  function VotesOnQuestion(db: Db, qid: QuestionId): nat
  {
    |Filter(db.votes, v => OnQuestion(db, qid, v))|
  }

  /** In a well-formed store, a vote is cast on an option of `qid` exactly when its option id is
      one of the ids of `qid`'s options. */
  lemma OptionOfQuestion(db: Db, qid: QuestionId, v: Vote)
    requires Wellformed(db) && v in db.votes
    ensures v.option in Ids(Filter(db.options, (o: PollOption) => o.question == qid), OptionKey) <==> OnQuestion(db, qid, v)
  {
    var o :| o in db.options && OptionKey(o) == v.option;
    FindByUnique(db.options, OptionKey, o);
    var mine := Filter(db.options, (o: PollOption) => o.question == qid);
    if v.option in Ids(mine, OptionKey) {
      var o' :| o' in mine && OptionKey(o') == v.option;
      assert o' == o by {
        var i :| 0 <= i < |db.options| && db.options[i] == o;
        var j :| 0 <= j < |db.options| && db.options[j] == o';
        assert i == j;
      }
    }
  }

  lemma {:induction false} CountInOnQuestion(db: Db, qid: QuestionId, vs: seq<Vote>)
    requires Wellformed(db) && forall v :: v in vs ==> v in db.votes
    ensures CountIn(vs, Ids(Filter(db.options, (o: PollOption) => o.question == qid), OptionKey))
      == |Filter(vs, v => OnQuestion(db, qid, v))|
  {
    if vs != [] {
      assert vs[0] in vs;
      OptionOfQuestion(db, qid, vs[0]);
      assert forall v :: v in vs[1..] ==> v in vs;
      CountInOnQuestion(db, qid, vs[1..]);
    }
  }

  /** A question's `total_votes` is the number of stored votes cast on any of its options: the
      per-option counts neither miss nor double-count a vote. */
  lemma TotalVotesAreQuestionVotes(db: Db, q: Question)
    requires Wellformed(db)
    ensures QuestionResultOf(db, q).totalVotes == VotesOnQuestion(db, q.id)
  {
    var mine := Filter(db.options, (o: PollOption) => o.question == q.id);
    TotalVotesSort(db.votes, mine, OptionOrder);
    FilterUnique(db.options, (o: PollOption) => o.question == q.id, OptionKey);
    TotalVotesIsCountIn(db.votes, mine);
    CountInOnQuestion(db, q.id, db.votes);
  }

  /** No option has more votes than the question's options together. */
  lemma {:induction false} CountsWithinTotal(votes: seq<Vote>, os: seq<PollOption>, total: nat)
    ensures forall e :: e in OptionResults(votes, os, total) ==> e.voteCount <= TotalVotes(votes, os)
  {
    if os != [] {
      CountsWithinTotal(votes, os[1..], total);
      assert OptionResults(votes, os, total) == [OptionResultOf(votes, os[0], total)] + OptionResults(votes, os[1..], total);
    }
  }

  /** A count no larger than the total is a share between 0 and 100 percent. */
  lemma PercentageBounds(count: nat, total: nat)
    requires count <= total
    ensures 0.0 <= Percentage(count, total) <= 100.0
  {
    if total > 0 {
      var x := (count as real) / (total as real);
      assert x * (total as real) == count as real;
      assert 0.0 <= x <= 1.0;
    }
  }

  /** Shares of the same total add up. */
  lemma SharesAdd(a: nat, b: nat, total: nat)
    requires total > 0
    ensures Percentage(a, total) + Percentage(b, total) == Percentage(a + b, total)
  {
    var t := total as real;
    var x := (a as real) / t;
    var y := (b as real) / t;
    assert x * t == a as real && y * t == b as real;
    assert (x + y) * t == (a + b) as real;
    assert ((a + b) as real) / t == x + y;
  }

  /** Every percentage lies between 0 and 100; when nobody voted on the question, every option
      shows 0 votes and 0 percent. */
  lemma PercentagesBounded(db: Db, q: Question)
    ensures var r := QuestionResultOf(db, q);
      && (forall e :: e in r.options ==> 0.0 <= e.percentage <= 100.0)
      && (r.totalVotes == 0 ==> forall e :: e in r.options ==> e.voteCount == 0 && e.percentage == 0.0)
  {
    var os := QuestionOptions(db, q.id);
    var total := TotalVotes(db.votes, os);
    var rs := OptionResults(db.votes, os, total);
    CountsWithinTotal(db.votes, os, total);
    PercentagesOf(db.votes, os, total);
    forall e | e in rs ensures 0.0 <= e.percentage <= 100.0 {
      PercentageBounds(e.voteCount, total);
    }
  }

  /** Each entry's percentage is its count's share of `total`. */
  lemma {:induction false} PercentagesOf(votes: seq<Vote>, os: seq<PollOption>, total: nat)
    ensures forall e :: e in OptionResults(votes, os, total) ==> e.percentage == Percentage(e.voteCount, total)
  {
    if os != [] {
      PercentagesOf(votes, os[1..], total);
      assert OptionResults(votes, os, total) == [OptionResultOf(votes, os[0], total)] + OptionResults(votes, os[1..], total);
    }
  }

  /** When at least one vote was cast, the unrounded percentages of a question add up to 100. */
  lemma PercentagesSumTo100(db: Db, q: Question)
    ensures var r := QuestionResultOf(db, q);
      r.totalVotes > 0 ==> SumPercentages(r.options) == 100.0
  {
    var os := QuestionOptions(db, q.id);
    var total := TotalVotes(db.votes, os);
    if total > 0 {
      SumPercentagesOf(db.votes, os, total);
      WholeShare(total);
    }
  }

  lemma WholeShare(total: nat)
    requires total > 0
    ensures Percentage(total, total) == 100.0
  {
    var t := total as real;
    assert t / t == 1.0;
  }

  lemma {:induction false} SumPercentagesOf(votes: seq<Vote>, os: seq<PollOption>, total: nat)
    requires total > 0
    ensures SumPercentages(OptionResults(votes, os, total)) == Percentage(TotalVotes(votes, os), total)
  {
    if os == [] {
      assert (0 as real) / (total as real) == 0.0;
    } else {
      SumPercentagesOf(votes, os[1..], total);
      SharesAdd(VoteCount(votes, os[0].id), TotalVotes(votes, os[1..]), total);
    }
  }
}
