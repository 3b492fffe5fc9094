/**
 * The poll page: from a request to a redirect or to the page to render.
 * A request without a usable poll id goes back to the index; a POST while
 * voting is open records or removes a vote and redirects to the poll;
 * everything else renders the poll with its results.
 */
module PollPage {
  import opened Wrappers
  import opened Php
  import opened Catalog
  import opened VoteStore
  import opened Results

  /** The parts of the request the page reads: `$_SERVER['REQUEST_METHOD']`, `$_GET['id']`, `$_POST['answer']`, `$_POST['remove_vote']`. */
  datatype Request = Request(requestMethod: string, id: Option<string>, answer: Option<string>, removeVote: Option<string>)

  /** Which blocks of the page are shown. */
  datatype ViewState = ViewState(closedAlert: bool, voteForm: bool, results: bool, changeVoteButton: bool, autoRefresh: bool)

  datatype Page = Page(poll: Poll, userVote: Option<string>, counts: OrderedArray<nat>, total: nat,
                       percentages: OrderedArray<real>, view: ViewState)

  datatype Outcome = RedirectToIndex | RedirectToPoll(pollId: string) | Render(page: Page)

  /**
   * The page's view conditions on the user's vote and on whether voting is
   * open. The page shows either the vote form or the results, never both;
   * the results refresh themselves exactly when they are shown; a closed poll
   * offers neither the form nor the change-vote button.
   */
  function ChooseView(userVote: Option<string>, active: bool): (v: ViewState)
    ensures v.voteForm <==> !Truthy(userVote) && active
    ensures v.changeVoteButton <==> Truthy(userVote) && active
    ensures v.closedAlert <==> !Truthy(userVote) && !active
    ensures v.autoRefresh <==> Truthy(userVote) || !active
    ensures v.results <==> !v.voteForm
    ensures v.autoRefresh <==> v.results
    ensures v.changeVoteButton ==> v.results && !v.closedAlert
    ensures !active ==> !v.voteForm && !v.changeVoteButton
  {
    var voted := Truthy(userVote);
    var voteForm := !voted && active;
    ViewState(
      closedAlert := !voted && !active,
      voteForm := voteForm,
      results := !voteForm,
      changeVoteButton := voted && active,
      autoRefresh := voted || !active)
  }

  /** A vote for the answer id "0" is falsy, so the page offers the vote form again as if no vote had been cast. */
  lemma VoteForZeroLooksUnvoted()
    ensures ChooseView(Some("0"), true).voteForm
    ensures !ChooseView(Some("0"), true).changeVoteButton
  {
  }

  predicate IsAnswerOf(poll: Poll, answerId: string)
  {
    exists i :: 0 <= i < |poll.answers| && poll.answers[i].id == answerId
  }

  /** The validation loop: does some answer of the poll have exactly this id? */
  method IsValidAnswer(poll: Poll, answerId: string) returns (valid: bool)
    ensures valid <==> IsAnswerOf(poll, answerId)
  {
    valid := false;
    var i := 0;
    while i < |poll.answers|
      invariant 0 <= i <= |poll.answers|
      invariant forall j :: 0 <= j < i ==> poll.answers[j].id != answerId
    {
      if poll.answers[i].id == answerId {
        valid := true;
        break;
      }
      i := i + 1;
    }
  }

  /**
   * The whole request: `userId` is the caller's id from `getUserId`;
   * `mkdirOk` and `fopenOk` say whether the file system lets `saveVote`
   * create the poll directory and the vote file.
   */
  method HandleRequest(store: Store, config: Option<Config>, userId: string, req: Request, mkdirOk: bool, fopenOk: bool)
    returns (o: Outcome)
    modifies store
    ensures !Truthy(req.id) || LookupPoll(config, req.id.value).None? ==>
      o == RedirectToIndex && store.dirs == old(store.dirs)
    ensures Truthy(req.id) && LookupPoll(config, req.id.value).Some? ==>
      var p := req.id.value;
      var poll := LookupPoll(config, p).value;
      var active := ArePollsActive(config);
      var posted := req.requestMethod == "POST" && active;
      (posted && req.answer.Some? ==>
        o == RedirectToPoll(p) &&
        store.dirs == if IsAnswerOf(poll, req.answer.value)
                      then SaveEffect(old(store.dirs), p, userId, req.answer.value, mkdirOk, fopenOk).dirs
                      else old(store.dirs)) &&
      (posted && req.answer.None? && req.removeVote.Some? ==>
        o == RedirectToPoll(p) && store.dirs == RemoveEffect(old(store.dirs), p, userId)) &&
      (!posted || (req.answer.None? && req.removeVote.None?) ==>
        store.dirs == old(store.dirs) && o.Render? &&
        o.page.poll == poll &&
        o.page.userVote == UserVote(store.dirs, p, userId) &&
        o.page.view == ChooseView(o.page.userVote, active) &&
        ResultsMatch(store.dirs, p, poll.answers, o.page.counts, o.page.total, o.page.percentages))
  {
    if !Truthy(req.id) {
      return RedirectToIndex;
    }
    var p := req.id.value;
    var poll := GetPoll(config, p);
    if poll.None? {
      return RedirectToIndex;
    }
    var active := ArePollsActive(config);
    if req.requestMethod == "POST" && active {
      if req.answer.Some? {
        var answerId := req.answer.value;
        var valid := IsValidAnswer(poll.value, answerId);
        if valid {
          var saved := store.SaveVote(p, userId, answerId, mkdirOk, fopenOk);
        }
        return RedirectToPoll(p);
      }
      if req.removeVote.Some? {
        var removed := store.RemoveVote(p, userId);
        return RedirectToPoll(p);
      }
    }
    var userVote := UserVote(store.dirs, p, userId);
    var counts, total, percentages := ComputeResults(store, p, poll.value.answers);
    return Render(Page(poll.value, userVote, counts, total, percentages, ChooseView(userVote, active)));
  }
}
