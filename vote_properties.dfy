/**
 * What the vote store promises, stated over `UserVote`, `VoteCount`,
 * `RemoveEffect` and `SaveEffect` and proved for all inputs.
 */
module VoteProperties {
  import opened Wrappers
  import opened Lex
  import opened VoteFiles
  import opened Tally
  import opened VoteStore
  import opened Php
  import opened Identity

  lemma SortedSingleton(x: string)
    ensures SortedList({x}) == [x]
  {
    var fs := SortedList({x});
    assert x in fs;
  }

  /** The files of poll `p`: none when it has no directory. */
  function DirOf(dirs: Dirs, p: string): set<string>
  {
    if p in dirs then dirs[p] else {}
  }

  /**
   * What `getUserVote` reads from any state: nothing when no file matches
   * `u_*.txt`; and, for an underscore-free id under the one-vote invariant,
   * the answer `a` whenever `u_a.txt` is present with `a` non-empty.
   */
  lemma UserVoteReadsTheVote(dirs: Dirs, p: string, u: string, a: string)
    ensures UserFiles(DirOf(dirs, p), u) == {} ==> UserVote(dirs, p, u) == None
    ensures NoUnderscore(u) && OneVotePerUser(DirOf(dirs, p)) && a != "" && VoteFile(u, a) in DirOf(dirs, p) ==>
      UserVote(dirs, p, u) == Some(a)
  {
    var dir := DirOf(dirs, p);
    if NoUnderscore(u) && OneVotePerUser(dir) && a != "" && VoteFile(u, a) in dir {
      OnlyVoteFile(dir, u, a);
      SortedSingleton(VoteFile(u, a));
      VoteFileMatchesUser(u, a);
    }
  }

  /** Under the invariant, a present `u_a.txt` is the only file matching `u_*.txt`. */
  lemma OnlyVoteFile(dir: set<string>, u: string, a: string)
    requires NoUnderscore(u) && OneVotePerUser(dir) && VoteFile(u, a) in dir
    ensures UserFiles(dir, u) == {VoteFile(u, a)}
  {
    var f := VoteFile(u, a);
    VoteFileMatchesUser(u, a);
    UserGlobIsOwnership(f, u);
    forall g | g in UserFiles(dir, u)
      ensures g == f
    {
      UserGlobIsOwnership(g, u);
    }
  }

  /** `u_a.txt` is the only file left matching `u_*.txt` once `saveVote` succeeds. */
  lemma SavedFileIsTheOnlyMatch(dir: set<string>, u: string, a: string)
    ensures UserFiles(dir - UserFiles(dir, u) + {VoteFile(u, a)}, u) == {VoteFile(u, a)}
  {
    VoteFileMatchesUser(u, a);
  }

  /**
   * A successful `saveVote(p, u, a)` leaves exactly one file matching
   * `u_*.txt` in poll `p`, and `getUserVote(p, u)` then returns `a`
   * (or nothing when `a` is empty). It fails only when `mkdir` or `fopen` does.
   */
  lemma SaveRecordsTheVote(dirs: Dirs, p: string, u: string, a: string, mkdirOk: bool, fopenOk: bool)
    ensures var o := SaveEffect(dirs, p, u, a, mkdirOk, fopenOk);
      (o.ok <==> (p in dirs || mkdirOk) && fopenOk) &&
      (o.ok ==> p in o.dirs && UserFiles(o.dirs[p], u) == {VoteFile(u, a)}) &&
      (o.ok ==> UserVote(o.dirs, p, u) == if a == "" then None else Some(a))
  {
    var o := SaveEffect(dirs, p, u, a, mkdirOk, fopenOk);
    if o.ok {
      var base := DirOf(dirs, p);
      SavedFileIsTheOnlyMatch(base, u, a);
      assert o.dirs[p] == base - UserFiles(base, u) + {VoteFile(u, a)};
      SortedSingleton(VoteFile(u, a));
      VoteFileMatchesUser(u, a);
    }
  }

  /**
   * A failed `saveVote`: when `mkdir` fails nothing changes; when `fopen`
   * fails the old vote has already been removed, so the user has no vote at all.
   */
  lemma SaveFailureEffects(dirs: Dirs, p: string, u: string, a: string, mkdirOk: bool, fopenOk: bool)
    ensures var o := SaveEffect(dirs, p, u, a, mkdirOk, fopenOk);
      (p !in dirs && !mkdirOk ==> !o.ok && o.dirs == dirs) &&
      ((p in dirs || mkdirOk) && !fopenOk ==>
        !o.ok && p in o.dirs && UserFiles(o.dirs[p], u) == {} && UserVote(o.dirs, p, u) == None)
  {
    var o := SaveEffect(dirs, p, u, a, mkdirOk, fopenOk);
    if (p in dirs || mkdirOk) && !fopenOk {
      var base := DirOf(dirs, p);
      assert o.dirs[p] == base - UserFiles(base, u);
      assert UserFiles(o.dirs[p], u) == {};
    }
  }

  /** After `removeVote(p, u)` no file matches `u_*.txt` and `getUserVote(p, u)` finds nothing. */
  lemma RemoveClearsTheVote(dirs: Dirs, p: string, u: string)
    ensures var after := RemoveEffect(dirs, p, u);
      (p in after ==> UserFiles(after[p], u) == {}) && UserVote(after, p, u) == None
  {
    var after := RemoveEffect(dirs, p, u);
    if p in after {
      assert UserFiles(after[p], u) == {};
    }
  }

  /**
   * Removal is idempotent, and removing the vote of a user who has no file
   * matching `u_*.txt` (or of a poll without a directory) changes nothing.
   */
  lemma RemoveIsIdempotent(dirs: Dirs, p: string, u: string)
    ensures RemoveEffect(RemoveEffect(dirs, p, u), p, u) == RemoveEffect(dirs, p, u)
    ensures p !in dirs || UserFiles(dirs[p], u) == {} ==> RemoveEffect(dirs, p, u) == dirs
  {
    if p in dirs {
      var once := RemoveEffect(dirs, p, u);
      assert UserFiles(once[p], u) == {};
      assert once[p] - {} == once[p];
      if UserFiles(dirs[p], u) == {} {
        assert dirs[p] - {} == dirs[p];
      }
    }
  }

  /**
   * With underscore-free ids, two different users' `u_*.txt` patterns never
   * match the same file, and `u_a.txt` is not matched by `v`'s pattern.
   */
  lemma PatternsOfDistinctUsersAreDisjoint(f: string, u: string, v: string, a: string)
    requires NoUnderscore(u) && NoUnderscore(v) && u != v
    ensures !(MatchesUserGlob(f, u) && MatchesUserGlob(f, v))
    ensures !MatchesUserGlob(VoteFile(u, a), v)
  {
    UserGlobIsOwnership(f, u);
    UserGlobIsOwnership(f, v);
    VoteFileMatchesUser(u, a);
    UserGlobIsOwnership(VoteFile(u, a), u);
    UserGlobIsOwnership(VoteFile(u, a), v);
  }

  /** `saveVote(p, u, a)` and `removeVote(p, u)` leave every other poll alone. */
  lemma SaveAndRemoveLeaveOtherPolls(dirs: Dirs, p: string, u: string, a: string, mkdirOk: bool, fopenOk: bool, q: string)
    requires q != p
    ensures var o := SaveEffect(dirs, p, u, a, mkdirOk, fopenOk);
      (q in o.dirs <==> q in dirs) && (q in dirs ==> o.dirs[q] == dirs[q])
    ensures var r := RemoveEffect(dirs, p, u);
      (q in r <==> q in dirs) && (q in dirs ==> r[q] == dirs[q])
  {
  }

  /**
   * Within poll `p`, `saveVote(p, u, a)` neither drops nor adds a file that
   * does not match `u_*.txt`, also when the save creates the directory.
   */
  lemma SaveKeepsOtherFiles(dirs: Dirs, p: string, u: string, a: string, mkdirOk: bool, fopenOk: bool, f: string)
    requires !MatchesUserGlob(f, u)
    ensures var o := SaveEffect(dirs, p, u, a, mkdirOk, fopenOk);
      p in o.dirs ==> (f in o.dirs[p] <==> f in DirOf(dirs, p))
  {
    VoteFileMatchesUser(u, a);
  }

  /** Taking out `u`'s files and adding `u_a.txt` leaves another underscore-free user's files as they were. */
  lemma OtherUserFilesUnchanged(dir: set<string>, u: string, v: string, a: string)
    requires NoUnderscore(u) && NoUnderscore(v) && u != v
    ensures UserFiles(dir - UserFiles(dir, u), v) == UserFiles(dir, v)
    ensures UserFiles(dir - UserFiles(dir, u) + {VoteFile(u, a)}, v) == UserFiles(dir, v)
  {
    forall f
      ensures !(MatchesUserGlob(f, u) && MatchesUserGlob(f, v))
    {
      PatternsOfDistinctUsersAreDisjoint(f, u, v, a);
    }
    PatternsOfDistinctUsersAreDisjoint(VoteFile(u, a), u, v, a);
  }

  /** With underscore-free ids, saving or removing `u`'s vote does not change what `getUserVote` returns for another user. */
  lemma SaveAndRemoveLeaveOtherUsersVote(dirs: Dirs, p: string, u: string, v: string, a: string, mkdirOk: bool, fopenOk: bool)
    requires NoUnderscore(u) && NoUnderscore(v) && u != v
    ensures UserVote(SaveEffect(dirs, p, u, a, mkdirOk, fopenOk).dirs, p, v) == UserVote(dirs, p, v)
    ensures UserVote(RemoveEffect(dirs, p, u), p, v) == UserVote(dirs, p, v)
  {
    var o := SaveEffect(dirs, p, u, a, mkdirOk, fopenOk);
    var base := DirOf(dirs, p);
    OtherUserFilesUnchanged(base, u, v, a);
    if p in o.dirs && p !in dirs {
      assert UserFiles(o.dirs[p], v) == {};
    }
  }

  /** At most one vote-shaped file per owner: the store's invariant for underscore-free ids. */
  ghost predicate OneVotePerUser(dir: set<string>)
  {
    forall f, g :: f in dir && g in dir && VoteLike(f) && VoteLike(g) && Owner(f) == Owner(g) ==> f == g
  }

  /** Under the invariant, an underscore-free user has at most one file matching `u_*.txt`. */
  lemma AtMostOneVote(dir: set<string>, u: string)
    requires OneVotePerUser(dir) && NoUnderscore(u)
    ensures |UserFiles(dir, u)| <= 1
  {
    var files := UserFiles(dir, u);
    if files != {} {
      var f :| f in files;
      forall g | g in files
        ensures g == f
      {
        UserGlobIsOwnership(f, u);
        UserGlobIsOwnership(g, u);
      }
      assert files == {f};
    }
  }

  /** `saveVote` and `removeVote` with an underscore-free id keep the invariant. */
  lemma SaveAndRemoveKeepOneVotePerUser(dirs: Dirs, p: string, u: string, a: string, mkdirOk: bool, fopenOk: bool)
    requires NoUnderscore(u)
    requires p in dirs ==> OneVotePerUser(dirs[p])
    ensures var o := SaveEffect(dirs, p, u, a, mkdirOk, fopenOk);
      p in o.dirs ==> OneVotePerUser(o.dirs[p])
    ensures var r := RemoveEffect(dirs, p, u);
      p in r ==> OneVotePerUser(r[p])
  {
    var o := SaveEffect(dirs, p, u, a, mkdirOk, fopenOk);
    var base := DirOf(dirs, p);
    var cleared := base - UserFiles(base, u);
    assert OneVotePerUser(cleared);
    var saved := VoteFile(u, a);
    VoteFileMatchesUser(u, a);
    UserGlobIsOwnership(saved, u);
    forall f | f in cleared && VoteLike(f)
      ensures Owner(f) != u
    {
      UserGlobIsOwnership(f, u);
    }
    assert OneVotePerUser(cleared + {saved});
  }

  /**
   * A user id containing '_' breaks the invariant: `a_b` voting `y` next to
   * user `a`'s vote `x` leaves two files owned by `a`.
   */
  lemma UnderscoreIdBreaksOneVotePerUser()
    ensures !OneVotePerUser(SaveEffect(map["p" := {"a_x.txt"}], "p", "a_b", "y", true, true).dirs["p"])
  {
    var f, g := "a_x.txt", "a_b_y.txt";
    SaveNextToVoteOfA();
    OwnedByA(f);
    OwnedByA(g);
    assert f != g;
  }

  lemma SaveNextToVoteOfA()
    ensures SaveEffect(map["p" := {"a_x.txt"}], "p", "a_b", "y", true, true).dirs["p"] == {"a_x.txt", "a_b_y.txt"}
  {
    assert !MatchesUserGlob("a_x.txt", "a_b");
    assert UserFiles({"a_x.txt"}, "a_b") == {};
    assert VoteFile("a_b", "y") == "a_b_y.txt";
  }

  lemma OwnedByA(f: string)
    requires f == "a_x.txt" || f == "a_b_y.txt"
    ensures VoteLike(f) && Owner(f) == "a"
  {
    assert MatchesUserGlob(f, "a");
    AnswersAgree(f, "a");
  }

  /** With the file `a_b_y.txt` of user `a_b`, `getUserVote` for user `a` answers `b_y`. */
  lemma UnderscoreIdReadsAnotherVote()
    ensures UserVote(map["p" := {"a_b_y.txt"}], "p", "a") == Some("b_y")
  {
    var g := "a_b_y.txt";
    assert MatchesUserGlob(g, "a");
    assert UserFiles({g}, "a") == {g};
    SortedSingleton(g);
    assert g[2..|g| - 4] == "b_y";
  }

  /** ... and `removeVote` for user `a` deletes user `a_b`'s vote. */
  lemma UnderscoreIdRemovesAnotherVote()
    ensures RemoveEffect(map["p" := {"a_b_y.txt"}], "p", "a")["p"] == {}
  {
    var g := "a_b_y.txt";
    assert MatchesUserGlob(g, "a");
    assert UserFiles({g}, "a") == {g};
  }

  /** A user whose id does not start with '.' has vote files that `*.txt` lists. */
  predicate ListableId(u: string)
  {
    u == "" || u[0] != '.'
  }

  lemma VoteFileIsCounted(u: string, a: string)
    requires NoUnderscore(u) && ListableId(u) && a != ""
    ensures MatchesTxtGlob(VoteFile(u, a)) && CountedAnswer(VoteFile(u, a)) == Some(a)
  {
    VoteFileMatchesUser(u, a);
    CountedAnswerOfVoteFile(u, a);
    assert VoteFile(u, a)[0] == if u == "" then '_' else u[0];
  }

  /** `*.txt` never lists a vote file of a user id that starts with '.', so such votes are never counted. */
  lemma DotIdNeverListed(u: string, a: string)
    requires !ListableId(u)
    ensures !MatchesTxtGlob(VoteFile(u, a))
  {
    assert VoteFile(u, a)[0] == u[0];
  }

  /** Taking a set `gone` out of `xs` and adding a new element: the sizes. */
  lemma SizeAfterReplace(xs: set<string>, gone: set<string>, y: string)
    requires y !in xs - gone
    ensures |xs - gone| == |xs| - |xs * gone|
    ensures |xs - gone + {y}| == |xs| - |xs * gone| + 1
  {
    assert xs == (xs - gone) + (xs * gone);
    assert (xs - gone) * (xs * gone) == {};
  }

  /** What `*.txt` lists and counts after user `u`'s files are replaced by `u_b.txt`. */
  lemma ListingAfterSave(dir: set<string>, u: string, b: string, c: string)
    requires NoUnderscore(u) && ListableId(u) && b != ""
    ensures var gone := UserFiles(dir, u);
      var after := dir - gone + {VoteFile(u, b)};
      VotesFor(Listed(after), c) == VotesFor(Listed(dir), c) - gone + (if c == b then {VoteFile(u, b)} else {}) &&
      Votes(Listed(after)) == Votes(Listed(dir)) - gone + {VoteFile(u, b)} &&
      VoteFile(u, b) !in Votes(Listed(dir)) - gone
  {
    VoteFileIsCounted(u, b);
    VoteFileMatchesUser(u, b);
  }

  /** A user whose files are at most `u_a.txt` has exactly that file, when it exists. */
  lemma GoneIsOldVote(dir: set<string>, u: string, a: string)
    requires UserFiles(dir, u) <= {VoteFile(u, a)}
    ensures UserFiles(dir, u) == if VoteFile(u, a) in dir then {VoteFile(u, a)} else {}
  {
    VoteFileMatchesUser(u, a);
  }

  lemma CountAfterSave(dir: set<string>, u: string, a: string, b: string, c: string)
    requires NoUnderscore(u) && ListableId(u) && a != "" && b != ""
    requires UserFiles(dir, u) <= {VoteFile(u, a)}
    ensures |VotesFor(Listed(dir - UserFiles(dir, u) + {VoteFile(u, b)}), c)| ==
      |VotesFor(Listed(dir), c)| - (if VoteFile(u, a) in dir && c == a then 1 else 0) + (if c == b then 1 else 0)
  {
    var gone := UserFiles(dir, u);
    GoneIsOldVote(dir, u, a);
    ListingAfterSave(dir, u, b, c);
    var before := VotesFor(Listed(dir), c);
    OldVoteAmongVotes(dir, u, a, c);
    SizeAfterReplace(before, gone, VoteFile(u, b));
  }

  lemma OldVoteAmongVotes(dir: set<string>, u: string, a: string, c: string)
    requires NoUnderscore(u) && ListableId(u) && a != ""
    requires UserFiles(dir, u) == if VoteFile(u, a) in dir then {VoteFile(u, a)} else {}
    ensures VotesFor(Listed(dir), c) * UserFiles(dir, u) == if VoteFile(u, a) in dir && c == a then {VoteFile(u, a)} else {}
  {
    VoteFileIsCounted(u, a);
  }

  lemma TotalAfterSave(dir: set<string>, u: string, a: string, b: string)
    requires NoUnderscore(u) && ListableId(u) && a != "" && b != ""
    requires UserFiles(dir, u) <= {VoteFile(u, a)}
    ensures |Votes(Listed(dir - UserFiles(dir, u) + {VoteFile(u, b)}))| ==
      |Votes(Listed(dir))| + (if VoteFile(u, a) in dir then 0 else 1)
  {
    var gone := UserFiles(dir, u);
    GoneIsOldVote(dir, u, a);
    ListingAfterSave(dir, u, b, a);
    var all := Votes(Listed(dir));
    assert all * gone == gone by {
      VoteFileIsCounted(u, a);
    }
    SizeAfterReplace(all, gone, VoteFile(u, b));
  }

  /**
   * Casting or changing a vote moves exactly one count: if user `u` had at
   * most the vote file for `a`, saving `b` lowers `a`'s count by one when
   * that file existed, raises `b`'s by one, leaves every other count alone,
   * and raises the total only for a first vote.
   */
  lemma SaveMovesOneCount(dirs: Dirs, p: string, u: string, a: string, b: string, c: string)
    requires NoUnderscore(u) && ListableId(u) && a != "" && b != ""
    requires UserFiles(DirOf(dirs, p), u) <= {VoteFile(u, a)}
    ensures var after := SaveEffect(dirs, p, u, b, true, true).dirs;
      var had := p in dirs && VoteFile(u, a) in dirs[p];
      VoteCount(after, p, c) == VoteCount(dirs, p, c) - (if had && c == a then 1 else 0) + (if c == b then 1 else 0) &&
      VoteTotal(after, p) == VoteTotal(dirs, p) + (if had then 0 else 1)
  {
    var dir := DirOf(dirs, p);
    var after := SaveEffect(dirs, p, u, b, true, true).dirs;
    assert after[p] == dir - UserFiles(dir, u) + {VoteFile(u, b)};
    if p !in dirs {
      assert Listed(dir) == {};
    }
    CountAfterSave(dir, u, a, b, c);
    TotalAfterSave(dir, u, a, b);
  }

  /**
   * An id `getUserId` generates is safe to vote with: it has no '_' and does
   * not start with '.', so every vote it casts for a non-empty answer is
   * listed by `*.txt` and counted under that answer.
   */
  lemma GeneratedIdsVoteSafely(cookie: Option<string>, rnd: seq<nat>, a: string)
    requires ValidDraws(rnd) && !Truthy(cookie) && a != ""
    ensures var u := GetUserId(cookie, rnd).id;
      NoUnderscore(u) && ListableId(u) &&
      MatchesTxtGlob(VoteFile(u, a)) && CountedAnswer(VoteFile(u, a)) == Some(a)
  {
    var u := GetUserId(cookie, rnd).id;
    assert u[0..4][0] == u[0];
    VoteFileIsCounted(u, a);
  }
}
