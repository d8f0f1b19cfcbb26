/** The figures the profile analyser derives from the accepted-submission counts the
    platform reports: `stats` maps each difficulty except the overall `"All"` entry to its
    count, and `total` is the sum of the values of `stats`. */
module SubmissionStats {

  /** One entry of `acSubmissionNum`. */
  datatype Submission = Submission(difficulty: string, count: int)

  const AllDifficulty: string := "All"

  /** Some entry of `subs` is for difficulty `d`. */
  predicate Reports(subs: seq<Submission>, d: string) {
    exists i | 0 <= i < |subs| :: subs[i].difficulty == d
  }

  /** No entry after index `i` is for the same difficulty as entry `i`. */
  predicate LastFor(subs: seq<Submission>, i: nat)
    requires i < |subs|
  {
    forall j | i < j < |subs| :: subs[j].difficulty != subs[i].difficulty
  }

  /** The dictionary comprehension over the entries, in order: each entry other than
      `"All"` sets its difficulty's count, so a later entry overwrites an earlier one. */
  function DifficultyStats(subs: seq<Submission>): (stats: map<string, int>)
    ensures AllDifficulty !in stats
    ensures forall d :: d in stats <==> d != AllDifficulty && Reports(subs, d)
  {
    if subs == [] then map[]
    else
      var init, last := subs[..|subs| - 1], subs[|subs| - 1];
      assert forall d :: Reports(subs, d) <==> Reports(init, d) || last.difficulty == d by {
        forall d | Reports(init, d) ensures Reports(subs, d) {
          var i :| 0 <= i < |init| && init[i].difficulty == d;
          assert subs[i] == init[i];
        }
        forall d | Reports(subs, d) && last.difficulty != d ensures Reports(init, d) {
          var i :| 0 <= i < |subs| && subs[i].difficulty == d;
          assert init[i] == subs[i];
        }
      }
      if last.difficulty == AllDifficulty then DifficultyStats(init)
      else DifficultyStats(init)[last.difficulty := last.count]
  }

  /** The count stored for a difficulty is the one of its last entry. */
  lemma {:induction false} LastEntryWins(subs: seq<Submission>, i: nat)
    requires i < |subs| && subs[i].difficulty != AllDifficulty && LastFor(subs, i)
    ensures DifficultyStats(subs)[subs[i].difficulty] == subs[i].count
  {
    var init := subs[..|subs| - 1];
    if i < |subs| - 1 {
      assert init[i] == subs[i];
      assert LastFor(init, i) by {
        assert forall j | i < j < |init| :: init[j] == subs[j];
      }
      LastEntryWins(init, i);
    }
  }

  /** The sum of the values of a map, as `sum(stats.values())` computes it. */
  ghost function MapSum(m: map<string, int>): int
    decreases |m|
  {
    if m == map[] then 0
    else
      var k :| k in m;
      m[k] + MapSum(m - {k})
  }

  /** The sum does not depend on which key is taken first. */
  lemma {:induction false} MapSumRemove(m: map<string, int>, k: string)
    requires k in m
    ensures MapSum(m) == m[k] + MapSum(m - {k})
    decreases |m|
  {
    var k' :| k' in m && MapSum(m) == m[k'] + MapSum(m - {k'});
    if k' != k {
      MapSumRemove(m - {k'}, k);
      MapSumRemove(m - {k}, k');
      assert m - {k'} - {k} == m - {k} - {k'};
    }
  }

  /** `total`, counted over the entries: each entry other than `"All"` that is the last one
      for its difficulty contributes its count. */
  function TotalSolved(subs: seq<Submission>): int {
    if subs == [] then 0
    else
      var x, rest := subs[0], subs[1..];
      (if x.difficulty != AllDifficulty && !Reports(rest, x.difficulty) then x.count else 0)
        + TotalSolved(rest)
  }

  /** The comprehension seen from the front: the first entry's count survives only when no
      later entry is for the same difficulty. */
  lemma {:induction false} StatsCons(x: Submission, rest: seq<Submission>)
    ensures DifficultyStats([x] + rest)
         == (if x.difficulty == AllDifficulty then map[] else map[x.difficulty := x.count])
              + DifficultyStats(rest)
    decreases |rest|
  {
    var subs := [x] + rest;
    if rest != [] {
      var init := rest[..|rest| - 1];
      assert subs[..|subs| - 1] == [x] + init;
      assert subs[|subs| - 1] == rest[|rest| - 1];
      StatsCons(x, init);
    }
  }

  /** Adding a new key adds its value to the sum. */
  lemma MapSumInsert(m: map<string, int>, k: string, v: int)
    requires k !in m
    ensures MapSum(m[k := v]) == v + MapSum(m)
  {
    MapSumRemove(m[k := v], k);
    assert m[k := v] - {k} == m;
  }

  /** A singleton whose key is already present is absorbed by the right-hand map. */
  lemma MergePresent(m: map<string, int>, k: string, v: int)
    requires k in m
    ensures map[k := v] + m == m
  {
  }

  /** Merging one entry in front of a map adds its count exactly when its key is new. */
  lemma MergeSum(x: Submission, m: map<string, int>)
    ensures MapSum((if x.difficulty == AllDifficulty then map[] else map[x.difficulty := x.count]) + m)
         == (if x.difficulty != AllDifficulty && x.difficulty !in m then x.count else 0) + MapSum(m)
  {
    if x.difficulty == AllDifficulty {
      assert map[] + m == m;
    } else if x.difficulty in m {
      MergePresent(m, x.difficulty, x.count);
    } else {
      assert map[x.difficulty := x.count] + m == m[x.difficulty := x.count];
      MapSumInsert(m, x.difficulty, x.count);
    }
  }

  /** One entry in front keeps `total` equal to the sum of the values of `stats`. */
  lemma TotalStep(x: Submission, rest: seq<Submission>)
    requires TotalSolved(rest) == MapSum(DifficultyStats(rest))
    ensures TotalSolved([x] + rest) == MapSum(DifficultyStats([x] + rest))
  {
    var subs := [x] + rest;
    assert subs[0] == x && subs[1..] == rest;
    StatsCons(x, rest);
    MergeSum(x, DifficultyStats(rest));
  }

  /** `total` is the sum of the values of `stats`. */
  lemma {:induction false} TotalIsSumOfStats(subs: seq<Submission>)
    ensures TotalSolved(subs) == MapSum(DifficultyStats(subs))
  {
    if subs != [] {
      TotalIsSumOfStats(subs[1..]);
      TotalStep(subs[0], subs[1..]);
      assert [subs[0]] + subs[1..] == subs;
    }
  }

  /** The counts of the entries other than `"All"`, all of them. */
  function SumCounts(subs: seq<Submission>): int {
    if subs == [] then 0
    else (if subs[0].difficulty != AllDifficulty then subs[0].count else 0) + SumCounts(subs[1..])
  }

  /** When every difficulty is reported once, as the platform does (`"All"`, `"Easy"`,
      `"Medium"`, `"Hard"`), `total` is the sum of every count except the overall one. */
  lemma {:induction false} DistinctTotal(subs: seq<Submission>)
    requires forall i, j | 0 <= i < j < |subs| :: subs[i].difficulty != subs[j].difficulty
    ensures TotalSolved(subs) == SumCounts(subs)
    ensures TotalSolved(subs) == MapSum(DifficultyStats(subs))
  {
    TotalIsSumOfStats(subs);
    if subs != [] {
      var rest := subs[1..];
      assert !Reports(rest, subs[0].difficulty) by {
        assert forall j | 0 <= j < |rest| :: rest[j] == subs[j + 1];
      }
      assert forall i, j | 0 <= i < j < |rest| :: rest[i].difficulty != rest[j].difficulty by {
        assert forall j | 0 <= j < |rest| :: rest[j] == subs[j + 1];
      }
      DistinctTotal(rest);
    }
  }
}
