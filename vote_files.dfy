/**
 * Names of vote files. A vote of user `u` for answer `a` is the file
 * `u_a.txt` in the poll's directory: the answer lives in the file's name, so
 * reading a vote back means matching that name against a glob pattern and a
 * regular expression.
 *
 * Names are taken to hold no newline and no glob metacharacter, so `.` in the
 * regular expressions matches any character and `$` is the end of the name.
 */
module VoteFiles {
  import opened Wrappers

  predicate NoUnderscore(s: string)
  {
    forall i :: 0 <= i < |s| ==> s[i] != '_'
  }

  /** The name `saveVote` gives the file recording user `u`'s vote for answer `a`. */
  function VoteFile(u: string, a: string): string
  {
    u + "_" + a + ".txt"
  }

  predicate EndsWithTxt(f: string)
  {
    |f| >= 4 && f[|f| - 4..] == ".txt"
  }

  /** `f` matches the glob `u_*.txt`: prefix `u_`, suffix `.txt`, `*` possibly empty. */
  predicate MatchesUserGlob(f: string, u: string): (m: bool)
    ensures m <==> |f| >= |u| + 5 && f == u + "_" + f[|u| + 1..|f| - 4] + ".txt"
  {
    if |f| < |u| + 5 then false
    else
      assert f == f[..|u| + 1] + f[|u| + 1..|f| - 4] + f[|f| - 4..];
      f[..|u| + 1] == u + "_" && EndsWithTxt(f)
  }

  /** `f` matches the glob `*.txt`; glob's `*` never matches a leading '.'. */
  predicate MatchesTxtGlob(f: string): (m: bool)
    ensures m <==> |f| >= 4 && f == f[..|f| - 4] + ".txt" && f[0] != '.'
  {
    EndsWithTxt(f) && f[0] != '.'
  }

  /**
   * The capture of `/u_(.+)\.txt$/` (with `u` quoted) on a name that matches
   * `u_*.txt`. The leftmost match starts at 0 and succeeds when at least one
   * character sits between `u_` and `.txt`; when it fails no later start can
   * succeed, since fewer than five characters follow any later `u_`.
   */
  function UserAnswer(f: string, u: string): (r: Option<string>)
    requires MatchesUserGlob(f, u)
    ensures r.Some? <==> |f| > |u| + 5
    ensures r.Some? ==> r.value != "" && f == VoteFile(u, r.value)
  {
    if |f| > |u| + 5 then Some(f[|u| + 1..|f| - 4]) else None
  }

  /** Index of the first '_' of `f`, or `|f|` when there is none. */
  function FirstUnderscore(f: string): (i: nat)
    ensures i <= |f|
    ensures i < |f| ==> f[i] == '_'
    ensures forall j :: 0 <= j < i ==> f[j] != '_'
  {
    if f == [] then 0
    else if f[0] == '_' then 0
    else
      var i := FirstUnderscore(f[1..]);
      assert forall j :: 0 < j <= i ==> f[j] == f[1..][j - 1];
      i + 1
  }

  /**
   * The capture of `/_(.+)\.txt$/`, the pattern `getVoteCounts` applies to
   * every listed file: the leftmost '_' that has at least one character
   * between it and the final `.txt`. If the first '_' has none, no later one
   * has any either, so the answer is always the text after the first '_'.
   */
  function CountedAnswer(f: string): (r: Option<string>)
    ensures r.Some? ==> r.value != "" && NoUnderscore(Owner(f)) && f == Owner(f) + "_" + r.value + ".txt"
  {
    var i := FirstUnderscore(f);
    if EndsWithTxt(f) && i + 6 <= |f| then Some(f[i + 1..|f| - 4]) else None
  }

  /** The text before the first '_': the user a vote file belongs to. */
  function Owner(f: string): string
  {
    f[..FirstUnderscore(f)]
  }

  /** `f` has the shape of a vote file of its owner: `owner_*.txt`. */
  predicate VoteLike(f: string)
  {
    FirstUnderscore(f) < |f| && MatchesUserGlob(f, Owner(f))
  }

  /** Every vote file is found by its user's glob and gives back its answer, when that is non-empty. */
  lemma VoteFileMatchesUser(u: string, a: string)
    ensures MatchesUserGlob(VoteFile(u, a), u)
    ensures UserAnswer(VoteFile(u, a), u) == Some(a) <==> a != ""
  {
    var f := VoteFile(u, a);
    assert f[..|u| + 1] == u + "_";
    assert f[|f| - 4..] == ".txt";
    assert f[|u| + 1..|f| - 4] == a;
  }

  lemma {:induction false} FirstUnderscoreOfVoteFile(u: string, a: string)
    requires NoUnderscore(u)
    ensures FirstUnderscore(VoteFile(u, a)) == |u|
  {
    var f := VoteFile(u, a);
    assert f[|u|] == '_';
    assert forall j :: 0 <= j < |u| ==> f[j] == u[j];
  }

  /**
   * The round trip through the counting pattern: the answer `getVoteCounts`
   * reads from `u_a.txt` is `a` exactly when `u` has no '_' and `a` is non-empty.
   */
  lemma CountedAnswerOfVoteFile(u: string, a: string)
    ensures CountedAnswer(VoteFile(u, a)) == Some(a) <==> NoUnderscore(u) && a != ""
  {
    var f := VoteFile(u, a);
    assert EndsWithTxt(f) by { assert f[|f| - 4..] == ".txt"; }
    if NoUnderscore(u) {
      FirstUnderscoreOfVoteFile(u, a);
      assert f[|u| + 1..|f| - 4] == a;
    } else {
      var k :| 0 <= k < |u| && u[k] == '_';
      assert f[k] == '_';
      var i := FirstUnderscore(f);
      assert i <= k;
      if CountedAnswer(f).Some? {
        assert |CountedAnswer(f).value| == |f| - 4 - i - 1 > |a|;
      }
    }
  }

  /** For a user id without '_' the counting pattern and `getUserVote`'s pattern read the same answer. */
  lemma AnswersAgree(f: string, u: string)
    requires NoUnderscore(u) && MatchesUserGlob(f, u)
    ensures CountedAnswer(f) == UserAnswer(f, u)
    ensures VoteLike(f) && Owner(f) == u
  {
    assert f[|u|] == (u + "_")[|u|] == '_';
    assert forall j :: 0 <= j < |u| ==> f[j] == (u + "_")[j] == u[j];
    assert Owner(f) == f[..|u|] == u;
  }

  /** With an underscore-free id, `u_*.txt` matches exactly the vote-shaped files owned by `u`. */
  lemma UserGlobIsOwnership(f: string, u: string)
    requires NoUnderscore(u)
    ensures MatchesUserGlob(f, u) <==> VoteLike(f) && Owner(f) == u
  {
    if MatchesUserGlob(f, u) {
      AnswersAgree(f, u);
    }
  }
}
