/**
 * The tally: `getVoteCounts` lists every `*.txt` file of a poll directory in
 * sorted order and counts each under the answer its name records;
 * `getTotalVotes` is `array_sum` of those counts. Both pages turn the counts
 * into one percentage per configured answer.
 */
module Tally {
  import opened Wrappers
  import opened Php
  import opened VoteFiles
  import opened Catalog

  /** One pass of `getVoteCounts`' loop: a file recording answer `a` adds one to `$counts[a]`. */
  function CountFile(counts: OrderedArray<nat>, f: string): OrderedArray<nat>
  {
    match CountedAnswer(f)
    case Some(a) => Put<nat>(counts, a, Get(counts, a) + 1)
    case None => counts
  }

  /** The `$counts` array once `getVoteCounts`' loop has seen `files`, in that order. */
  function TallyOf(files: seq<string>): OrderedArray<nat>
  {
    if files == [] then [] else CountFile(TallyOf(files[..|files| - 1]), files[|files| - 1])
  }

  /** The files whose name records a vote for answer `a`. */
  function VotesFor(files: set<string>, a: string): set<string>
  {
    set f | f in files && CountedAnswer(f) == Some(a)
  }

  /** The files whose name records a vote for some answer. */
  function Votes(files: set<string>): set<string>
  {
    set f | f in files && CountedAnswer(f).Some?
  }

  function Elements(files: seq<string>): set<string>
  {
    set f | f in files
  }

  predicate Distinct(files: seq<string>)
  {
    forall i, j :: 0 <= i < j < |files| ==> files[i] != files[j]
  }

  /** Counting a list of distinct files gives, for every answer, the number of files recording it. */
  lemma {:induction false} TallyCountsEachAnswer(files: seq<string>, a: string)
    requires Distinct(files)
    ensures Get(TallyOf(files), a) == |VotesFor(Elements(files), a)|
  {
    if files != [] {
      var init, x := files[..|files| - 1], files[|files| - 1];
      assert Distinct(init);
      TallyCountsEachAnswer(init, a);
      assert files == init + [x];
      VotesForGrow(init, x, a);
      GetCountFile(TallyOf(init), x, a);
    }
  }

  lemma GetCountFile(counts: OrderedArray<nat>, f: string, a: string)
    ensures Get(CountFile(counts, f), a) == Get(counts, a) + if CountedAnswer(f) == Some(a) then 1 else 0
  {
  }

  lemma VotesForGrow(init: seq<string>, x: string, a: string)
    requires Distinct(init + [x])
    ensures |VotesFor(Elements(init + [x]), a)| == |VotesFor(Elements(init), a)| + if CountedAnswer(x) == Some(a) then 1 else 0
  {
    VotesGrow(init, x);
    var before := VotesFor(Elements(init), a);
    assert x !in before;
    if CountedAnswer(x) == Some(a) {
      assert VotesFor(Elements(init + [x]), a) == before + {x};
    } else {
      assert VotesFor(Elements(init + [x]), a) == before;
    }
  }

  /** The counts add up to the number of distinct files that record any answer. */
  lemma {:induction false} TallySum(files: seq<string>)
    requires Distinct(files)
    ensures Sum(TallyOf(files)) == |Votes(Elements(files))|
  {
    if files != [] {
      var init, x := files[..|files| - 1], files[|files| - 1];
      assert Distinct(init);
      TallySum(init);
      assert files == init + [x];
      VotesGrow(init, x);
      var before := TallyOf(init);
      assert TallyOf(files) == CountFile(before, x);
      SumCountFile(before, x);
    }
  }

  lemma SumCountFile(counts: OrderedArray<nat>, f: string)
    ensures Sum(CountFile(counts, f)) == Sum(counts) + if CountedAnswer(f).Some? then 1 else 0
  {
    if CountedAnswer(f).Some? {
      var b := CountedAnswer(f).value;
      var n: nat := Get(counts, b) + 1;
      SumPut(counts, b, n);
    }
  }

  lemma VotesGrow(init: seq<string>, x: string)
    requires Distinct(init + [x])
    ensures Votes(Elements(init + [x])) == Votes(Elements(init)) + if CountedAnswer(x).Some? then {x} else {}
    ensures x !in Votes(Elements(init))
  {
    var all := init + [x];
    assert Elements(all) == Elements(init) + {x};
    forall i | 0 <= i < |init|
      ensures init[i] != x
    {
      assert all[i] == init[i] && all[|init|] == x;
    }
    assert x !in Elements(init);
  }

  /** Exactly the answers that have a vote appear as keys of the counts, each once. */
  lemma {:induction false} TallyKeys(files: seq<string>)
    ensures forall a :: HasKey(TallyOf(files), a) <==> Get(TallyOf(files), a) > 0
    ensures KeysUnique(TallyOf(files))
  {
    if files != [] {
      var init := files[..|files| - 1];
      TallyKeys(init);
      var before := TallyOf(init);
      forall a
        ensures HasKey(TallyOf(files), a) <==> Get(TallyOf(files), a) > 0
      {
        assert Lookup(TallyOf(files), a).Some? <==> HasKey(TallyOf(files), a);
        assert Lookup(before, a).Some? <==> HasKey(before, a);
      }
    }
  }

  /** One percentage as the pages compute it: `($count / $totalVotes) * 100`, or 0 when nobody voted. */
  function Percent(count: nat, total: nat): (r: real)
    ensures total == 0 ==> r == 0.0
    ensures total > 0 ==> r * total as real == count as real * 100.0
  {
    if total > 0 then (count as real / total as real) * 100.0 else 0.0
  }

  /** A count that is part of the total gives a percentage between 0 and 100. */
  lemma PercentInRange(count: nat, total: nat)
    requires count <= total
    ensures 0.0 <= Percent(count, total) <= 100.0
  {
    if total > 0 {
      var q := count as real / total as real;
      assert q * total as real == count as real;
      assert q <= 1.0;
    }
  }

  /** Against the total `array_sum` gives, every answer's percentage lies between 0 and 100. */
  lemma PercentagesInRange(counts: OrderedArray<nat>, a: string)
    ensures 0.0 <= Percent(Get(counts, a), Sum(counts)) <= 100.0
  {
    GetAtMostSum(counts, a);
    PercentInRange(Get(counts, a), Sum(counts));
  }

  /**
   * The `$percentages` loop of both pages: one entry per configured answer
   * id, in answer order, holding that answer's share of the total, with an
   * absent count read as 0.
   */
  method ComputePercentages(answers: seq<Answer>, counts: OrderedArray<nat>, total: nat)
    returns (percentages: OrderedArray<real>)
    ensures forall k :: HasKey(percentages, k) <==> exists i :: 0 <= i < |answers| && answers[i].id == k
    ensures forall i :: 0 <= i < |answers| ==>
      Lookup(percentages, answers[i].id) == Some(Percent(Get(counts, answers[i].id), total))
    ensures KeysUnique(percentages)
    ensures total == 0 ==> forall k :: HasKey(percentages, k) ==> Lookup(percentages, k) == Some(0.0)
  {
    percentages := [];
    for i := 0 to |answers|
      invariant forall k :: HasKey(percentages, k) <==> exists j :: 0 <= j < i && answers[j].id == k
      invariant forall j :: 0 <= j < i ==>
        Lookup(percentages, answers[j].id) == Some(Percent(Get(counts, answers[j].id), total))
      invariant KeysUnique(percentages)
    {
      var id := answers[i].id;
      var count := Get(counts, id);
      ghost var before := percentages;
      percentages := Put(percentages, id, Percent(count, total));
      forall k
        ensures HasKey(percentages, k) <==> k == id || HasKey(before, k)
      {
        assert Lookup(percentages, k).Some? <==> k == id || Lookup(before, k).Some?;
      }
    }
  }
}
