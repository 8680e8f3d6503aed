/** The visibility filters of PollsViewSet and QuestionsViewSet (polls/views.py), and what a
    principal can do with a poll once the filter and PollPermission are combined. */
module Views {
  import opened Wrappers
  import opened Seqs
  import opened Models
  import opened Permissions

  /** Who may see a poll: a superuser sees every poll, an authenticated user their own polls and
      the public ones, an anonymous principal only the public ones. */
  predicate CanSeePoll(pr: Principal, p: Poll)
  {
    match pr
    case Anonymous => p.isPublic
    case Authenticated(u, superuser) => superuser || p.createdBy == u || p.isPublic
  }

  /** `PollsViewSet.get_queryset`: the three branches, each in the default newest-first order. */
  function PollQueryset(db: Db, pr: Principal): seq<Poll>
  {
    if pr.Authenticated? && pr.isSuperuser then NewestPollsFirst(db.polls)
    else if pr.Authenticated? then NewestPollsFirst(Filter(db.polls, (p: Poll) => p.createdBy == pr.id || p.isPublic))
    else NewestPollsFirst(Filter(db.polls, (p: Poll) => p.isPublic))
  }

  /** The poll listing holds exactly the polls the principal may see, each as often as it is
      stored, newest first. */
  lemma PollQuerysetExact(db: Db, pr: Principal)
    ensures var r := PollQueryset(db, pr);
      && (forall p :: multiset(r)[p] == if CanSeePoll(pr, p) then multiset(db.polls)[p] else 0)
      && (forall p :: p in r <==> p in db.polls && CanSeePoll(pr, p))
      && (forall i, j :: 0 <= i < j < |r| ==> r[i].createdAt >= r[j].createdAt)
  {
    var r := PollQueryset(db, pr);
    if !(pr.Authenticated? && pr.isSuperuser) {
      var f := if pr.Authenticated? then Filter(db.polls, (p: Poll) => p.createdBy == pr.id || p.isPublic)
               else Filter(db.polls, (p: Poll) => p.isPublic);
      assert multiset(r) == multiset(f);
      if pr.Authenticated? {
        FilterMultiset(db.polls, (p: Poll) => p.createdBy == pr.id || p.isPublic);
      } else {
        FilterMultiset(db.polls, (p: Poll) => p.isPublic);
      }
    }
  }

  /** The question's poll grants visibility to a non-superuser: the joins
      `poll_id__created_by=user` and `poll_id__is_public=True`. */
  predicate ParentVisible(db: Db, pr: Principal, q: Question)
  {
    match FindPoll(db, q.poll)
    case None => false
    case Some(p) => (pr.Authenticated? && p.createdBy == pr.id) || p.isPublic
  }

  /** `QuestionsViewSet.get_queryset`, with `pollPk` the optional `poll_pk` of the nested route. */
  function QuestionQueryset(db: Db, pr: Principal, pollPk: Option<PollId>): seq<Question>
  {
    if pr.Authenticated? && pr.isSuperuser then
      if pollPk.Some? then Filter(db.questions, (q: Question) => q.poll == pollPk.value) else db.questions
    else
      Filter(db.questions, (q: Question) => ParentVisible(db, pr, q) && (pollPk.Some? ==> q.poll == pollPk.value))
  }

  /** Scoping the question listing to one poll is an intersection: it never widens what is seen. */
  lemma QuestionScopeNarrows(db: Db, pr: Principal, pk: PollId)
    ensures forall q :: q in QuestionQueryset(db, pr, Some(pk)) <==> q in QuestionQueryset(db, pr, None) && q.poll == pk
  {
  }

  /** In a well-formed store a question is listed exactly when its poll is listed, for every principal. */
  lemma QuestionVisibleIffPollVisible(db: Db, pr: Principal, q: Question)
    requires Wellformed(db)
    requires q in db.questions
    ensures q in QuestionQueryset(db, pr, None) <==> exists p :: p in PollQueryset(db, pr) && p.id == q.poll
  {
    var p :| p in db.polls && PollKey(p) == q.poll;
    FindByUnique(db.polls, PollKey, p);
    assert FindPoll(db, q.poll) == Some(p);
    PollQuerysetExact(db, pr);
    if exists p' :: p' in PollQueryset(db, pr) && p'.id == q.poll {
      var p' :| p' in PollQueryset(db, pr) && p'.id == q.poll;
      FindByUnique(db.polls, PollKey, p');
    } else {
      assert p !in PollQueryset(db, pr);
    }
  }

  /** Reading a poll (a safe method: the object must be in the listing and pass PollPermission)
      is allowed exactly for the polls the principal may see. */
  lemma ReadAccess(db: Db, pr: Principal, m: HttpMethod, action: Option<string>, p: Poll)
    requires IsSafe(m)
    ensures p in PollQueryset(db, pr) && HasObjectPermission(m, action, pr, p) <==>
      p in db.polls && CanSeePoll(pr, p)
  {
    PollQuerysetExact(db, pr);
  }

  /** Changing or deleting a stored poll is allowed exactly for its owner; being a superuser does
      not suffice. */
  lemma WriteAccess(db: Db, pr: Principal, m: HttpMethod, action: Option<string>, p: Poll)
    requires !IsSafe(m) && action != Some("vote")
    requires p in db.polls
    ensures p in PollQueryset(db, pr) && HasObjectPermission(m, action, pr, p) <==>
      pr.Authenticated? && pr.id == p.createdBy
  {
    PollQuerysetExact(db, pr);
  }
}
