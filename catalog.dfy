/**
 * The poll catalogue: the decoded configuration file and the two lookups on
 * it. Reading and decoding the file (`loadConfig`) is not modelled; its
 * result arrives as an `Option<Config>`, None when the file is missing,
 * unreadable or not valid JSON.
 */
module Catalog {
  import opened Wrappers

  /** A decoded JSON scalar, as far as the strict comparison `=== true` can tell them apart. */
  datatype JsonValue = JBool(b: bool) | JNumber(n: int) | JString(s: string)

  datatype Answer = Answer(id: string, text: string)

  datatype Poll = Poll(id: string, title: string, question: string, answers: seq<Answer>)

  /** The configuration object; a key that is absent or null (`isset` fails) is None. */
  datatype Config = Config(active: Option<JsonValue>, polls: Option<seq<Poll>>)

  /** The first poll of `polls` whose id is `id`, as `getPoll`'s loop returns it. */
  function FirstPoll(polls: seq<Poll>, id: string): Option<Poll>
  {
    if polls == [] then None
    else if polls[0].id == id then Some(polls[0])
    else FirstPoll(polls[1..], id)
  }

  /** What `getPoll` returns: nothing without a configuration or a `polls` key. */
  function LookupPoll(config: Option<Config>, id: string): (r: Option<Poll>)
    ensures r.None? <==>
      (config.None? || config.value.polls.None? ||
       forall i :: 0 <= i < |config.value.polls.value| ==> config.value.polls.value[i].id != id)
    ensures r.Some? ==> r.value.id == id && r.value in config.value.polls.value
  {
    if config.None? || config.value.polls.None? then None
    else
      FirstPollIsFirstMatch(config.value.polls.value, id);
      FirstPoll(config.value.polls.value, id)
  }

  /** `FirstPoll` finds a poll exactly when one has the id, and then the earliest one. */
  lemma {:induction false} FirstPollIsFirstMatch(polls: seq<Poll>, id: string)
    ensures FirstPoll(polls, id).None? <==> forall i :: 0 <= i < |polls| ==> polls[i].id != id
    ensures FirstPoll(polls, id).Some? ==>
      exists i :: 0 <= i < |polls| && polls[i] == FirstPoll(polls, id).value &&
        polls[i].id == id && forall j :: 0 <= j < i ==> polls[j].id != id
  {
    if polls != [] && polls[0].id != id {
      FirstPollIsFirstMatch(polls[1..], id);
      assert forall i :: 0 < i < |polls| ==> polls[i] == polls[1..][i - 1];
      if FirstPoll(polls, id).Some? {
        var i :| 0 <= i < |polls[1..]| && polls[1..][i] == FirstPoll(polls, id).value &&
          polls[1..][i].id == id && forall j :: 0 <= j < i ==> polls[1..][j].id != id;
        assert polls[i + 1] == polls[1..][i];
        assert forall j :: 0 < j < i + 1 ==> polls[j] == polls[1..][j - 1];
      }
    }
  }

  /** `getPoll`: scan the configured polls and return the first whose id is exactly `id`. */
  method GetPoll(config: Option<Config>, id: string) returns (r: Option<Poll>)
    ensures r == LookupPoll(config, id)
  {
    if config.None? || config.value.polls.None? {
      return None;
    }
    var polls := config.value.polls.value;
    var i := 0;
    while i < |polls|
      invariant 0 <= i <= |polls|
      invariant FirstPoll(polls, id) == FirstPoll(polls[i..], id)
    {
      if polls[i].id == id {
        return Some(polls[i]);
      }
      assert polls[i..][1..] == polls[i + 1..];
      i := i + 1;
    }
    return None;
  }

  /** `arePollsActive`: voting is open only when `active` is the JSON boolean true. */
  function ArePollsActive(config: Option<Config>): (active: bool)
    ensures active <==> config.Some? && config.value.active == Some(JBool(true))
  {
    match config
    case None => false
    case Some(c) =>
      match c.active
      case Some(JBool(b)) => b
      case _ => false
  }
}
