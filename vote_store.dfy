/**
 * The vote store: under the data directory, one directory per poll and one
 * file `USERID_ANSWERID.txt` per vote, holding a timestamp that no read uses.
 * The directory tree is the field `dirs` of a `Store`: for each poll whose
 * directory exists, the set of names of the files in it. File contents are not modelled;
 * the outcomes of `mkdir` and `fopen` are parameters, and `unlink` always succeeds.
 */
module VoteStore {
  import opened Wrappers
  import opened Lex
  import opened Php
  import opened VoteFiles
  import opened Tally

  /** Poll id to the names of the files in that poll's directory; a poll without a directory is absent. */
  type Dirs = map<string, set<string>>

  /** The files `glob` finds for the pattern `USERID_*.txt` in a poll directory, as a set. */
  function UserFiles(dir: set<string>, u: string): set<string>
  {
    set f | f in dir && MatchesUserGlob(f, u)
  }

  /** The files `glob` finds for the pattern `*.txt` in a poll directory, as a set. */
  function Listed(dir: set<string>): set<string>
  {
    set f | f in dir && MatchesTxtGlob(f)
  }

  /**
   * `getUserVote`: the answer read from the first file, in sorted order,
   * matching `u_*.txt`; none without a directory, without a match, or when
   * that first file has an empty answer part.
   */
  function UserVote(dirs: Dirs, p: string, u: string): (r: Option<string>)
    ensures r.Some? ==> r.value != "" && p in dirs && VoteFile(u, r.value) in dirs[p]
  {
    if p !in dirs then None
    else
      var files := SortedList(UserFiles(dirs[p], u));
      if files == [] then None
      else
        var r := UserAnswer(files[0], u);
        r
  }

  /** `getVoteCounts($pollId)[$a] ?? 0`: the listed files of poll `p` recording a vote for `a`. */
  function VoteCount(dirs: Dirs, p: string, a: string): nat
  {
    if p in dirs then |VotesFor(Listed(dirs[p]), a)| else 0
  }

  /** The listed files of poll `p` recording a vote for any answer. */
  function VoteTotal(dirs: Dirs, p: string): nat
  {
    if p in dirs then |Votes(Listed(dirs[p]))| else 0
  }

  /** The directory tree after `removeVote(p, u)`: every file matching `u_*.txt` is gone. */
  function RemoveEffect(dirs: Dirs, p: string, u: string): (r: Dirs)
    ensures r.Keys == dirs.Keys
    ensures forall q :: q in dirs && q != p ==> r[q] == dirs[q]
    ensures p in dirs ==> r[p] <= dirs[p] && UserFiles(r[p], u) == {}
    ensures p in dirs ==> forall f :: f in dirs[p] && !MatchesUserGlob(f, u) ==> f in r[p]
  {
    if p in dirs then dirs[p := dirs[p] - UserFiles(dirs[p], u)] else dirs
  }

  datatype SaveOutcome = SaveOutcome(ok: bool, dirs: Dirs)

  /**
   * `saveVote(p, u, a)`: create the directory if needed (failing when `mkdir`
   * fails), remove the user's vote, then create `u_a.txt` (failing, with
   * the old vote already gone, when `fopen` fails).
   */
  function SaveEffect(dirs: Dirs, p: string, u: string, a: string, mkdirOk: bool, fopenOk: bool): (o: SaveOutcome)
    ensures o.ok <==> (p in dirs || mkdirOk) && fopenOk
    ensures o.ok ==> p in o.dirs && VoteFile(u, a) in o.dirs[p]
    ensures o.dirs.Keys == if p !in dirs && mkdirOk then dirs.Keys + {p} else dirs.Keys
    ensures forall q :: q in dirs && q != p ==> o.dirs[q] == dirs[q]
    ensures p in o.dirs ==> UserFiles(o.dirs[p], u) <= {VoteFile(u, a)}
  {
    if p !in dirs && !mkdirOk then SaveOutcome(false, dirs)
    else
      var cleared := RemoveEffect(if p in dirs then dirs else dirs[p := {}], p, u);
      if !fopenOk then SaveOutcome(false, cleared)
      else SaveOutcome(true, cleared[p := cleared[p] + {VoteFile(u, a)}])
  }

  lemma RemoveNothing(dirs: Dirs, p: string, u: string)
    requires p in dirs && SortedList(UserFiles(dirs[p], u)) == []
    ensures RemoveEffect(dirs, p, u) == dirs
  {
    assert UserFiles(dirs[p], u) == {};
    assert dirs[p] - {} == dirs[p];
  }

  /** Unlinking the listed files one by one: the state after `i` of them, and after one more. */
  lemma Unlinked(dirs: Dirs, p: string, files: seq<string>, i: nat)
    requires p in dirs && i <= |files|
    ensures i == 0 ==> dirs == dirs[p := dirs[p] - Elements(files[..i])]
    ensures i < |files| ==>
      dirs[p := dirs[p] - Elements(files[..i])][p := (dirs[p] - Elements(files[..i])) - {files[i]}] ==
      dirs[p := dirs[p] - Elements(files[..i + 1])]
  {
    if i == 0 {
      assert Elements(files[..0]) == {};
      assert dirs[p] - {} == dirs[p];
    }
    if i < |files| {
      assert Elements(files[..i + 1]) == Elements(files[..i]) + {files[i]};
      assert dirs[p] - Elements(files[..i + 1]) == (dirs[p] - Elements(files[..i])) - {files[i]};
    }
  }

  /** Counting the sorted `*.txt` listing of a directory yields the tally of its vote files. */
  lemma ListingCounts(dirs: Dirs, p: string)
    requires p in dirs
    ensures var counts := TallyOf(SortedList(Listed(dirs[p])));
      (forall a :: Get(counts, a) == VoteCount(dirs, p, a)) &&
      (forall a :: HasKey(counts, a) <==> VoteCount(dirs, p, a) > 0) &&
      Sum(counts) == VoteTotal(dirs, p) &&
      KeysUnique(counts)
  {
    var files := SortedList(Listed(dirs[p]));
    assert Elements(files) == Listed(dirs[p]);
    forall a
      ensures Get(TallyOf(files), a) == VoteCount(dirs, p, a)
    {
      TallyCountsEachAnswer(files, a);
    }
    TallySum(files);
    TallyKeys(files);
  }

  /** One pass of the counting loop extends the tally of the files seen so far. */
  lemma TallyStep(files: seq<string>, i: nat)
    requires i < |files|
    ensures TallyOf(files[..i + 1]) == CountFile(TallyOf(files[..i]), files[i])
  {
    assert files[..i + 1][..i] == files[..i];
  }

  /**
   * The loop of `getVoteCounts` over a listing: each file whose name records
   * an answer adds one to that answer's entry, creating it at 0 first.
   */
  method CountListing(files: seq<string>) returns (counts: OrderedArray<nat>)
    ensures counts == TallyOf(files)
  {
    counts := [];
    for i := 0 to |files|
      invariant counts == TallyOf(files[..i])
    {
      TallyStep(files, i);
      var answer := CountedAnswer(files[i]);
      if answer.Some? {
        counts := Put<nat>(counts, answer.value, Get(counts, answer.value) + 1);
      }
    }
    assert files[..|files|] == files;
  }

  class Store {
    var dirs: Dirs

    constructor (initial: Dirs)
      ensures dirs == initial
    {
      dirs := initial;
    }

    /** `removeVote`: unlink each file matching `u_*.txt`; always reports success. */
    method RemoveVote(p: string, u: string) returns (ok: bool)
      modifies this
      ensures ok
      ensures dirs == RemoveEffect(old(dirs), p, u)
    {
      if p !in dirs {
        return true;
      }
      var files := SortedList(UserFiles(dirs[p], u));
      if files == [] {
        RemoveNothing(dirs, p, u);
        return true;
      }
      ghost var dir := dirs[p];
      Unlinked(dirs, p, files, 0);
      for i := 0 to |files|
        invariant dirs == old(dirs)[p := dir - Elements(files[..i])]
      {
        Unlinked(old(dirs), p, files, i);
        dirs := dirs[p := dirs[p] - {files[i]}];
      }
      assert Elements(files[..|files|]) == UserFiles(dir, u);
      return true;
    }

    /** `saveVote`: see `SaveEffect`. */
    method SaveVote(p: string, u: string, a: string, mkdirOk: bool, fopenOk: bool) returns (ok: bool)
      modifies this
      ensures SaveOutcome(ok, dirs) == SaveEffect(old(dirs), p, u, a, mkdirOk, fopenOk)
    {
      if p !in dirs {
        if !mkdirOk {
          return false;
        }
        dirs := dirs[p := {}];
      }
      var removed := RemoveVote(p, u);
      if !fopenOk {
        return false;
      }
      dirs := dirs[p := dirs[p] + {VoteFile(u, a)}];
      return true;
    }

    /**
     * `getVoteCounts`: walk the sorted `*.txt` listing and count each file
     * under the answer after the first '_' of its name.
     */
    method GetVoteCounts(p: string) returns (counts: OrderedArray<nat>)
      ensures forall a :: Get(counts, a) == VoteCount(dirs, p, a)
      ensures forall a :: HasKey(counts, a) <==> VoteCount(dirs, p, a) > 0
      ensures Sum(counts) == VoteTotal(dirs, p)
      ensures KeysUnique(counts)
    {
      counts := [];
      if p !in dirs {
        return;
      }
      var files := SortedList(Listed(dirs[p]));
      if files == [] {
        ListingCounts(dirs, p);
        return;
      }
      counts := CountListing(files);
      ListingCounts(dirs, p);
    }

    /** `getTotalVotes`: `array_sum` of the counts. */
    method GetTotalVotes(p: string) returns (total: nat)
      ensures total == VoteTotal(dirs, p)
    {
      var counts := GetVoteCounts(p);
      total := Sum(counts);
    }
  }
}
