/**
 * pickBestResult: choose one geocoding candidate for a query name and an
 * optional hint. The pipeline narrows the list in two tiers, each falling back
 * to its input when it would leave nothing (a hint filter on country, admin1,
 * admin2 or country code, then an exact-name filter), and returns the head of
 * a stable sort by descending population.
 *
 * PickBestResult is the pipeline as a function; PickBest is the loop-based
 * procedure of app.js, proved to compute it. The lemmas state what the
 * choice means without reference to the pipeline: the winner is an eligible
 * candidate of greatest population, and the earliest such one.
 */
module Ranking {
  import opened Options
  import opened Text
  import Seqs

  /** One entry of the geocoding service's `results` array; any field may be missing. */
  datatype Candidate = Candidate(
    name: Option<string>,
    country: Option<string>,
    countryCode: Option<string>,
    admin1: Option<string>,
    admin2: Option<string>,
    population: Option<nat>)

  /** `result.population || 0` */
  function PopulationOf(c: Candidate): (n: nat) {
    c.population.GetOr(0)
  }

  /** The hint test of the filter callback; `hintLower` is the lower-cased hint. */
  predicate MatchesHint(c: Candidate, hintLower: string)
    ensures hintLower == [] ==> MatchesHint(c, hintLower)
  {
    || Contains(Lower(c.country.GetOr("")), hintLower)
    || Contains(Lower(c.admin1.GetOr("")), hintLower)
    || Contains(Lower(c.admin2.GetOr("")), hintLower)
    || Lower(c.countryCode.GetOr("")) == hintLower
  }

  /** The exact-name test; `nameLower` is the lower-cased query name. */
  predicate MatchesName(c: Candidate, nameLower: string)
    ensures MatchesName(c, nameLower) ==> IsLower(nameLower) && |nameLower| == |c.name.GetOr("")|
  {
    Lower(c.name.GetOr("")) == nameLower
  }

  /** results.filter(...) on the hint. */
  function HintMatches(results: seq<Candidate>, hintLower: string): (r: seq<Candidate>) {
    Seqs.Filter(results, c => MatchesHint(c, hintLower))
  }

  /** The candidates the exact-name loop collects. */
  function ExactMatches(pool: seq<Candidate>, nameLower: string): (r: seq<Candidate>) {
    Seqs.Filter(pool, c => MatchesName(c, nameLower))
  }

  /** `pool`: the hint matches, or every result when there is no hint or nothing matches it. */
  function HintPool(results: seq<Candidate>, hint: string): (pool: seq<Candidate>)
    ensures |pool| <= |results|
    ensures pool == [] <==> results == []
    ensures hint != [] && HintMatches(results, Lower(hint)) != [] ==>
              forall k :: 0 <= k < |pool| ==> MatchesHint(pool[k], Lower(hint))
  {
    var filtered := if hint != [] then HintMatches(results, Lower(hint)) else results;
    if |filtered| > 0 then filtered else results
  }

  /** `ranked`: the exact-name matches of the pool, or the whole pool when there are none. */
  function RankedPool(results: seq<Candidate>, name: string, hint: string): (ranked: seq<Candidate>)
    ensures |ranked| <= |results|
    ensures ranked == [] <==> results == []
    ensures ExactMatches(HintPool(results, hint), Lower(name)) != [] ==>
              forall k :: 0 <= k < |ranked| ==> MatchesName(ranked[k], Lower(name))
  {
    var pool := HintPool(results, hint);
    var exact := ExactMatches(pool, Lower(name));
    if |exact| > 0 then exact else pool
  }

  predicate IsSortedByPopulation(s: seq<Candidate>) {
    forall i, j :: 0 <= i < j < |s| ==> PopulationOf(s[i]) >= PopulationOf(s[j])
  }

  /** Puts `x` after every element whose population is at least its own, as a stable sort does with a later element. */
  function InsertByPopulation(sorted: seq<Candidate>, x: Candidate): (r: seq<Candidate>)
    ensures |r| == |sorted| + 1
    ensures multiset(r) == multiset(sorted) + multiset{x}
    ensures r[0] == if sorted != [] && PopulationOf(x) <= PopulationOf(sorted[0]) then sorted[0] else x
  {
    if sorted == [] then [x]
    else if PopulationOf(x) > PopulationOf(sorted[0]) then [x] + sorted
    else
      assert sorted == [sorted[0]] + sorted[1..];
      [sorted[0]] + InsertByPopulation(sorted[1..], x)
  }

  lemma {:induction false} InsertKeepsSorted(sorted: seq<Candidate>, x: Candidate)
    requires IsSortedByPopulation(sorted)
    ensures IsSortedByPopulation(InsertByPopulation(sorted, x))
  {
    if sorted == [] {
    } else if PopulationOf(x) > PopulationOf(sorted[0]) {
      PrependKeepsSorted(x, sorted);
    } else {
      var tail := sorted[1..];
      InsertKeepsSorted(tail, x);
      InsertBelow(tail, x, PopulationOf(sorted[0]));
      PrependKeepsSorted(sorted[0], InsertByPopulation(tail, x));
    }
  }

  lemma PrependKeepsSorted(y: Candidate, s: seq<Candidate>)
    requires IsSortedByPopulation(s)
    requires forall k :: 0 <= k < |s| ==> PopulationOf(s[k]) <= PopulationOf(y)
    ensures IsSortedByPopulation([y] + s)
  {
    var r := [y] + s;
    forall i, j | 0 <= i < j < |r|
      ensures PopulationOf(r[i]) >= PopulationOf(r[j])
    {
      assert r[j] == s[j - 1];
      if i > 0 {
        assert r[i] == s[i - 1];
      }
    }
  }

  lemma {:induction false} InsertBelow(s: seq<Candidate>, x: Candidate, bound: nat)
    requires PopulationOf(x) <= bound
    requires forall k :: 0 <= k < |s| ==> PopulationOf(s[k]) <= bound
    ensures forall k :: 0 <= k < |InsertByPopulation(s, x)| ==> PopulationOf(InsertByPopulation(s, x)[k]) <= bound
  {
    if s != [] && PopulationOf(x) <= PopulationOf(s[0]) {
      InsertBelow(s[1..], x, bound);
    }
  }

  /**
   * rankedCopy.sort((a, b) => populationB - populationA): a stable sort into
   * descending population, as an insertion sort. The result is sorted and a
   * permutation of the input.
   */
  function SortByPopulation(s: seq<Candidate>): (r: seq<Candidate>)
    ensures |r| == |s|
    ensures multiset(r) == multiset(s)
    ensures IsSortedByPopulation(r)
  {
    if s == [] then []
    else
      var init := s[..|s| - 1];
      assert s == init + [s[|s| - 1]];
      InsertKeepsSorted(SortByPopulation(init), s[|s| - 1]);
      InsertByPopulation(SortByPopulation(init), s[|s| - 1])
  }

  /** The earliest element of greatest population. */
  function FirstMax(s: seq<Candidate>): (best: Candidate)
    requires s != []
  {
    if |s| == 1 then s[0]
    else
      var best := FirstMax(s[..|s| - 1]);
      if PopulationOf(s[|s| - 1]) > PopulationOf(best) then s[|s| - 1] else best
  }

  /** pickBestResult; None stands for the undefined `rankedCopy[0]` of an empty list. */
  function PickBestResult(results: seq<Candidate>, name: string, hint: string): (best: Option<Candidate>)
    ensures best.None? <==> results == []
    ensures best.Some? ==> best.value in RankedPool(results, name, hint)
  {
    var rankedCopy := SortByPopulation(RankedPool(results, name, hint));
    assert rankedCopy != [] ==> rankedCopy[0] in multiset(rankedCopy);
    if |rankedCopy| > 0 then Some(rankedCopy[0]) else None
  }

  /** The stable sort puts the earliest candidate of greatest population first. */
  lemma {:induction false} SortHeadIsFirstMax(s: seq<Candidate>)
    requires s != []
    ensures |SortByPopulation(s)| == |s|
    ensures SortByPopulation(s)[0] == FirstMax(s)
  {
    if |s| > 1 {
      SortHeadIsFirstMax(s[..|s| - 1]);
    }
  }

  /** The pipeline's choices, stated directly: is a hint in force? */
  predicate UsesHint(results: seq<Candidate>, hint: string) {
    hint != [] && exists c :: c in results && MatchesHint(c, Lower(hint))
  }

  predicate InHintPool(c: Candidate, results: seq<Candidate>, hint: string) {
    UsesHint(results, hint) ==> MatchesHint(c, Lower(hint))
  }

  /** Is the exact-name tier in force? */
  predicate UsesName(results: seq<Candidate>, name: string, hint: string) {
    exists c :: c in results && InHintPool(c, results, hint) && MatchesName(c, Lower(name))
  }

  /** A candidate that survives both tiers. */
  predicate Eligible(c: Candidate, results: seq<Candidate>, name: string, hint: string) {
    InHintPool(c, results, hint) && (UsesName(results, name, hint) ==> MatchesName(c, Lower(name)))
  }

  function HintEligible(results: seq<Candidate>, hint: string): (r: seq<Candidate>) {
    Seqs.Filter(results, c => InHintPool(c, results, hint))
  }

  function AllEligible(results: seq<Candidate>, name: string, hint: string): (r: seq<Candidate>) {
    Seqs.Filter(results, c => Eligible(c, results, name, hint))
  }

  lemma HintPoolIsEligible(results: seq<Candidate>, hint: string)
    ensures HintPool(results, hint) == HintEligible(results, hint)
  {
    var inPool := c => InHintPool(c, results, hint);
    if UsesHint(results, hint) {
      var hintLower := Lower(hint);
      var c :| c in results && MatchesHint(c, hintLower);
      Seqs.FilterMembers(results, x => MatchesHint(x, hintLower), c);
      Seqs.FilterExt(results, x => MatchesHint(x, hintLower), inPool);
    } else {
      if hint != [] {
        var filtered := HintMatches(results, Lower(hint));
        if |filtered| > 0 {
          Seqs.FilterMembers(results, x => MatchesHint(x, Lower(hint)), filtered[0]);
        }
      }
      Seqs.FilterKeepsAll(results, inPool);
    }
  }

  lemma RankedPoolIsEligible(results: seq<Candidate>, name: string, hint: string)
    ensures RankedPool(results, name, hint) == AllEligible(results, name, hint)
  {
    HintPoolIsEligible(results, hint);
    var nameLower := Lower(name);
    var inPool := c => InHintPool(c, results, hint);
    var named := c => MatchesName(c, nameLower);
    var eligible := c => Eligible(c, results, name, hint);
    var pool := HintPool(results, hint);
    var exact := ExactMatches(pool, nameLower);
    if UsesName(results, name, hint) {
      var c :| c in results && InHintPool(c, results, hint) && MatchesName(c, nameLower);
      Seqs.FilterMembers(results, inPool, c);
      Seqs.FilterMembers(pool, named, c);
      Seqs.FilterTwice(results, inPool, named, eligible);
    } else {
      if |exact| > 0 {
        Seqs.FilterMembers(pool, named, exact[0]);
        Seqs.FilterMembers(results, inPool, exact[0]);
      }
      Seqs.FilterExt(results, inPool, eligible);
    }
  }

  /** The earliest element of greatest population among those a predicate keeps, as an index into the whole sequence. */
  lemma {:induction false} FirstMaxOfFilter(s: seq<Candidate>, p: Candidate -> bool) returns (i: nat)
    requires Seqs.Filter(s, p) != []
    ensures i < |s| && p(s[i]) && FirstMax(Seqs.Filter(s, p)) == s[i]
    ensures forall j :: 0 <= j < |s| && p(s[j]) ==> PopulationOf(s[j]) <= PopulationOf(s[i])
    ensures forall j :: 0 <= j < i && p(s[j]) ==> PopulationOf(s[j]) < PopulationOf(s[i])
  {
    var init := s[..|s| - 1];
    assert forall j :: 0 <= j < |init| ==> init[j] == s[j];
    if !p(s[|s| - 1]) {
      assert Seqs.Filter(s, p) == Seqs.Filter(init, p);
      var k := FirstMaxOfFilter(init, p);
      i := FirstMaxSkipsLast(s, p, k);
    } else if Seqs.Filter(init, p) == [] {
      i := FirstMaxOnlyLast(s, p);
    } else {
      var k := FirstMaxOfFilter(init, p);
      i := FirstMaxWithLast(s, p, k);
    }
  }

  /** The step of FirstMaxOfFilter when the last element is not kept. */
  lemma FirstMaxSkipsLast(s: seq<Candidate>, p: Candidate -> bool, k: nat) returns (i: nat)
    requires s != [] && !p(s[|s| - 1])
    requires k < |s| - 1 && p(s[k]) && Seqs.Filter(s[..|s| - 1], p) != []
    requires FirstMax(Seqs.Filter(s[..|s| - 1], p)) == s[k]
    requires forall j :: 0 <= j < |s| - 1 && p(s[j]) ==> PopulationOf(s[j]) <= PopulationOf(s[k])
    requires forall j :: 0 <= j < k && p(s[j]) ==> PopulationOf(s[j]) < PopulationOf(s[k])
    ensures i < |s| && p(s[i]) && FirstMax(Seqs.Filter(s, p)) == s[i]
    ensures forall j :: 0 <= j < |s| && p(s[j]) ==> PopulationOf(s[j]) <= PopulationOf(s[i])
    ensures forall j :: 0 <= j < i && p(s[j]) ==> PopulationOf(s[j]) < PopulationOf(s[i])
  {
    var kept := Seqs.Filter(s[..|s| - 1], p);
    assert Seqs.Filter(s, p) == kept + [];
    assert kept + [] == kept;
    i := k;
    forall j | 0 <= j < |s| && p(s[j])
      ensures PopulationOf(s[j]) <= PopulationOf(s[i])
    {
      assert j < |s| - 1;
    }
  }

  /** The step of FirstMaxOfFilter when the last element is the only one kept. */
  lemma FirstMaxOnlyLast(s: seq<Candidate>, p: Candidate -> bool) returns (i: nat)
    requires s != [] && p(s[|s| - 1]) && Seqs.Filter(s[..|s| - 1], p) == []
    ensures i < |s| && p(s[i]) && FirstMax(Seqs.Filter(s, p)) == s[i]
    ensures forall j :: 0 <= j < |s| && p(s[j]) ==> PopulationOf(s[j]) <= PopulationOf(s[i])
    ensures forall j :: 0 <= j < i && p(s[j]) ==> PopulationOf(s[j]) < PopulationOf(s[i])
  {
    var init := s[..|s| - 1];
    assert Seqs.Filter(s, p) == [] + [s[|s| - 1]];
    forall j | 0 <= j < |init| && p(s[j])
      ensures false
    {
      assert s[j] == init[j];
      Seqs.FilterMembers(init, p, init[j]);
    }
    i := |s| - 1;
  }

  /** The step of FirstMaxOfFilter when the last element is kept after others. */
  lemma FirstMaxWithLast(s: seq<Candidate>, p: Candidate -> bool, k: nat) returns (i: nat)
    requires s != [] && p(s[|s| - 1])
    requires k < |s| - 1 && p(s[k]) && Seqs.Filter(s[..|s| - 1], p) != []
    requires FirstMax(Seqs.Filter(s[..|s| - 1], p)) == s[k]
    requires forall j :: 0 <= j < |s| - 1 && p(s[j]) ==> PopulationOf(s[j]) <= PopulationOf(s[k])
    requires forall j :: 0 <= j < k && p(s[j]) ==> PopulationOf(s[j]) < PopulationOf(s[k])
    ensures i < |s| && p(s[i]) && FirstMax(Seqs.Filter(s, p)) == s[i]
    ensures forall j :: 0 <= j < |s| && p(s[j]) ==> PopulationOf(s[j]) <= PopulationOf(s[i])
    ensures forall j :: 0 <= j < i && p(s[j]) ==> PopulationOf(s[j]) < PopulationOf(s[i])
  {
    var kept := Seqs.Filter(s[..|s| - 1], p);
    var t := kept + [s[|s| - 1]];
    assert Seqs.Filter(s, p) == t;
    assert t[..|t| - 1] == kept;
    i := if PopulationOf(s[|s| - 1]) > PopulationOf(s[k]) then |s| - 1 else k;
  }

  /**
   * What pickBestResult returns, without the pipeline: for a non-empty list,
   * an eligible candidate whose population is the greatest among the
   * eligible ones, and no eligible candidate before it has as large a one.
   */
  lemma PickBestResultIsBest(results: seq<Candidate>, name: string, hint: string) returns (i: nat)
    requires results != []
    ensures i < |results| && PickBestResult(results, name, hint) == Some(results[i])
    ensures Eligible(results[i], results, name, hint)
    ensures forall j :: 0 <= j < |results| && Eligible(results[j], results, name, hint) ==>
              PopulationOf(results[j]) <= PopulationOf(results[i])
    ensures forall j :: 0 <= j < i && Eligible(results[j], results, name, hint) ==>
              PopulationOf(results[j]) < PopulationOf(results[i])
  {
    PickBestIsFirstMaxOfEligible(results, name, hint);
    i := FirstMaxOfFilter(results, c => Eligible(c, results, name, hint));
  }

  lemma PickBestIsFirstMaxOfEligible(results: seq<Candidate>, name: string, hint: string)
    requires results != []
    ensures AllEligible(results, name, hint) != []
    ensures PickBestResult(results, name, hint) == Some(FirstMax(AllEligible(results, name, hint)))
  {
    var ranked := RankedPool(results, name, hint);
    SortHeadIsFirstMax(ranked);
    RankedPoolIsEligible(results, name, hint);
  }

  /** The result is one of the results, and there is one exactly when the list is not empty. */
  lemma PickBestResultIsMember(results: seq<Candidate>, name: string, hint: string)
    ensures PickBestResult(results, name, hint).None? <==> results == []
    ensures PickBestResult(results, name, hint).Some? ==> PickBestResult(results, name, hint).value in results
  {
    if results != [] {
      var i := PickBestResultIsBest(results, name, hint);
    }
  }

  /** A hint that some candidate matches is obeyed. */
  lemma MatchedHintIsObeyed(results: seq<Candidate>, name: string, hint: string, sample: Candidate)
    requires hint != [] && sample in results && MatchesHint(sample, Lower(hint))
    ensures PickBestResult(results, name, hint).Some?
    ensures MatchesHint(PickBestResult(results, name, hint).value, Lower(hint))
  {
    var i := PickBestResultIsBest(results, name, hint);
  }

  /** An exact name match in the hint pool is preferred to any other candidate. */
  lemma ExactNameIsPreferred(results: seq<Candidate>, name: string, hint: string, sample: Candidate)
    requires sample in results && InHintPool(sample, results, hint) && MatchesName(sample, Lower(name))
    ensures PickBestResult(results, name, hint).Some?
    ensures MatchesName(PickBestResult(results, name, hint).value, Lower(name))
  {
    assert UsesName(results, name, hint);
    var i := PickBestResultIsBest(results, name, hint);
  }

  /** A hint that nothing matches is as good as no hint at all. */
  lemma UnmatchedHintIsIgnored(results: seq<Candidate>, name: string, hint: string)
    requires forall c :: c in results ==> !MatchesHint(c, Lower(hint))
    ensures PickBestResult(results, name, hint) == PickBestResult(results, name, "")
  {
    if hint != [] {
      var filtered := HintMatches(results, Lower(hint));
      if |filtered| > 0 {
        Seqs.FilterMembers(results, c => MatchesHint(c, Lower(hint)), filtered[0]);
      }
    }
  }

  /** The exact-name loop: `pool` scanned in order, pushing every candidate whose lower-cased name is `nameLower`. */
  method CollectExactMatches(pool: seq<Candidate>, nameLower: string) returns (exactMatches: seq<Candidate>)
    ensures exactMatches == ExactMatches(pool, nameLower)
  {
    exactMatches := [];
    for i := 0 to |pool|
      invariant exactMatches == ExactMatches(pool[..i], nameLower)
    {
      assert pool[..i + 1][..i] == pool[..i];
      var candidateName := Lower(pool[i].name.GetOr(""));
      if candidateName == nameLower {
        exactMatches := exactMatches + [pool[i]];
      }
    }
    assert pool[..|pool|] == pool;
  }

  /**
   * The head of the stable population sort, found by one scan that replaces
   * the best so far only by a strictly larger population.
   */
  method HighestPopulation(ranked: seq<Candidate>) returns (top: Candidate)
    requires ranked != []
    ensures top == SortByPopulation(ranked)[0]
  {
    top := ranked[0];
    for i := 1 to |ranked|
      invariant top == FirstMax(ranked[..i])
    {
      assert ranked[..i + 1][..i] == ranked[..i];
      if PopulationOf(ranked[i]) > PopulationOf(top) {
        top := ranked[i];
      }
    }
    assert ranked[..|ranked|] == ranked;
    SortHeadIsFirstMax(ranked);
  }

  /**
   * The procedure of app.js: the hint filter, the exact-name loop, the
   * fallbacks, and the first element of the sorted copy.
   */
  method PickBest(results: seq<Candidate>, name: string, hint: string) returns (best: Option<Candidate>)
    ensures best == PickBestResult(results, name, hint)
  {
    var filtered := results;
    var nameLower := Lower(name);
    if hint != [] {
      filtered := HintMatches(results, Lower(hint));
    }
    var pool := if |filtered| > 0 then filtered else results;
    assert pool == HintPool(results, hint);

    var exactMatches := CollectExactMatches(pool, nameLower);
    var ranked := if |exactMatches| > 0 then exactMatches else pool;
    assert ranked == RankedPool(results, name, hint);

    if |ranked| == 0 {
      return None;
    }
    var top := HighestPopulation(ranked);
    return Some(top);
  }
}
