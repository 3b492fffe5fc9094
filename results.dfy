/**
 * The results both pages show for a poll: vote counts, the total, and one
 * percentage per configured answer, all read from the vote store.
 */
module Results {
  import opened Wrappers
  import opened Php
  import opened Catalog
  import opened Tally
  import opened VoteStore

  /**
   * `counts`, `total` and `percentages` are what poll `p` of the store holds:
   * every answer's count (answers outside the poll included), the number of
   * counted vote files, which is also the sum of the counts, and each configured answer's share of that total.
   */
  ghost predicate ResultsMatch(dirs: Dirs, p: string, answers: seq<Answer>,
                               counts: OrderedArray<nat>, total: nat, percentages: OrderedArray<real>)
  {
    && (forall a :: Get(counts, a) == VoteCount(dirs, p, a))
    && (forall a :: HasKey(counts, a) <==> VoteCount(dirs, p, a) > 0)
    && KeysUnique(counts)
    && total == VoteTotal(dirs, p)
    && total == Sum(counts)
    && (forall k :: HasKey(percentages, k) <==> exists i :: 0 <= i < |answers| && answers[i].id == k)
    && (forall i :: 0 <= i < |answers| ==>
          Lookup(percentages, answers[i].id) == Some(Percent(VoteCount(dirs, p, answers[i].id), total)))
    && KeysUnique(percentages)
  }

  /**
   * `getVoteCounts`, `getTotalVotes`, then the `$percentages` loop over the
   * poll's answers.
   */
  method ComputeResults(store: Store, p: string, answers: seq<Answer>)
    returns (counts: OrderedArray<nat>, total: nat, percentages: OrderedArray<real>)
    ensures ResultsMatch(store.dirs, p, answers, counts, total, percentages)
  {
    counts := store.GetVoteCounts(p);
    total := store.GetTotalVotes(p);
    percentages := ComputePercentages(answers, counts, total);
  }

  /**
   * What matching results promise a reader: every count is at most the total, every percentage lies between
   * 0 and 100, and all are 0 when nobody has voted.
   */
  lemma ResultsAreConsistent(dirs: Dirs, p: string, answers: seq<Answer>,
                             counts: OrderedArray<nat>, total: nat, percentages: OrderedArray<real>)
    requires ResultsMatch(dirs, p, answers, counts, total, percentages)
    ensures forall a :: Get(counts, a) <= total
    ensures forall i :: 0 <= i < |answers| ==>
      var v := Lookup(percentages, answers[i].id);
      v.Some? && 0.0 <= v.value <= 100.0 && (total == 0 ==> v.value == 0.0)
  {
    forall a
      ensures Get(counts, a) <= total
    {
      GetAtMostSum(counts, a);
    }
    forall i | 0 <= i < |answers|
      ensures 0.0 <= Percent(VoteCount(dirs, p, answers[i].id), total) <= 100.0
    {
      PercentInRange(Get(counts, answers[i].id), total);
    }
  }
}
