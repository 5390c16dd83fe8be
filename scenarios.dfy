/** The scenario objects the schedule generator returns (decoded JSON), as
    read by the timeline table and the scenario summary.  A field that may be
    absent from the JSON is an `Option`; a JSON object keeps its key order, so
    the team map is a list of (team id, assignments) with distinct ids. */
module Scenarios {
  import opened Wrappers

  /** One room visit of a team.  Every key may be missing. */
  datatype Assignment = Assignment(
    roomName: Option<string>,
    theme: Option<string>,
    startTime: Option<string>,
    endTime: Option<string>,
    members: Option<seq<string>>,
    memberCount: Option<int>,
    travelTimeFromPrevious: Option<int>,
    notes: Option<string>)

  predicate DistinctIds(teams: seq<(string, seq<Assignment>)>) {
    forall i, j :: 0 <= i < j < |teams| ==> teams[i].0 != teams[j].0
  }

  /** The `teams` object: team id to that team's assignments, in key order. */
  type Teams = t: seq<(string, seq<Assignment>)> | DistinctIds(t) witness []

  datatype Scenario = Scenario(
    name: Option<string>,
    description: Option<string>,
    teams: Option<Teams>,
    pros: Option<string>,
    cons: Option<string>)

  /** The ids of the teams, as a set. */
  function TeamIds(teams: seq<(string, seq<Assignment>)>): set<string> {
    set i | 0 <= i < |teams| :: teams[i].0
  }

  /** Distinct ids: as many ids as teams. */
  lemma {:induction false} TeamIdsCount(teams: Teams)
    ensures |TeamIds(teams)| == |teams|
    decreases |teams|
  {
    if teams != [] {
      var rest: Teams := teams[1..];
      TeamIdsCount(rest);
      assert TeamIds(teams) == {teams[0].0} + TeamIds(rest) by {
        forall id | id in TeamIds(teams) ensures id in {teams[0].0} + TeamIds(rest) {
          var i :| 0 <= i < |teams| && teams[i].0 == id;
          if i > 0 { assert rest[i - 1].0 == id; }
        }
      }
      forall i | 0 <= i < |rest| ensures rest[i].0 != teams[0].0 {
        assert rest[i] == teams[i + 1];
      }
    }
  }

  /** `teams[id]`: the assignments of the team with that id. */
  function AssignmentsOf(teams: seq<(string, seq<Assignment>)>, id: string): (r: seq<Assignment>)
    requires id in TeamIds(teams)
    decreases |teams|
  {
    if teams[0].0 == id then teams[0].1
    else
      assert id in TeamIds(teams[1..]) by {
        var i :| 0 <= i < |teams| && teams[i].0 == id;
        assert teams[1..][i - 1].0 == id;
      }
      AssignmentsOf(teams[1..], id)
  }

  /** The lookup finds the team entry with that id. */
  lemma {:induction false} AssignmentsOfFinds(teams: Teams, i: nat)
    requires i < |teams|
    ensures teams[i].0 in TeamIds(teams) && AssignmentsOf(teams, teams[i].0) == teams[i].1
    decreases |teams|
  {
    if i > 0 {
      var rest: Teams := teams[1..];
      assert rest[i - 1] == teams[i];
      AssignmentsOfFinds(rest, i - 1);
    }
  }
}
