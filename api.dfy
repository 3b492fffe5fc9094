/**
 * The results endpoint polled by the page's refresh script: from a poll id
 * to a JSON response, either an error or the poll's current results. It only
 * reads the vote store.
 */
module Api {
  import opened Wrappers
  import opened Php
  import opened Catalog
  import opened VoteStore
  import opened Results

  /** `{"success": false, "error": …}` or `{"success": true, "pollId": …, "totalVotes": …, "counts": …, "percentages": …}`. */
  datatype Response =
    | Failure(error: string)
    | Success(pollId: string, totalVotes: nat, counts: OrderedArray<nat>, percentages: OrderedArray<real>)

  method Handle(store: Store, config: Option<Config>, id: Option<string>) returns (r: Response)
    ensures !Truthy(id) ==> r == Failure("Poll ID required")
    ensures Truthy(id) && LookupPoll(config, id.value).None? ==> r == Failure("Poll not found")
    ensures Truthy(id) && LookupPoll(config, id.value).Some? ==>
      r.Success? && r.pollId == id.value &&
      ResultsMatch(store.dirs, id.value, LookupPoll(config, id.value).value.answers, r.counts, r.totalVotes, r.percentages)
  {
    if !Truthy(id) {
      return Failure("Poll ID required");
    }
    var pollId := id.value;
    var poll := GetPoll(config, pollId);
    if poll.None? {
      return Failure("Poll not found");
    }
    var counts, total, percentages := ComputeResults(store, pollId, poll.value.answers);
    return Success(pollId, total, counts, percentages);
  }
}
