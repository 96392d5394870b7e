/** The schedules the experiments build: two agents with the same name. */
module ExperimentMatches {
  import opened MatchSchedule

  /** Two agents that are both "random" still play each other twice, once
      with each index as white. */
  method RandomVersusRandom() returns (matches: seq<(string, string)>)
    ensures matches == [("random", "random"), ("random", "random")]
  {
    matches := GenerateMatches(["random", "random"]);
    assert Position(2, 0, 1) == 0;
  }
}
