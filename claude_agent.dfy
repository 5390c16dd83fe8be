/** The schedule generator's side of the conversation with the language
    model: reading the scenario list out of the model's reply (the JSON
    payload may sit inside a Markdown code fence), and the readable summary
    of one scenario. */
module ClaudeAgent {
  import opened Wrappers
  import opened Text
  import opened Scenarios

  // ---- the JSON payload of a reply ----

  const JsonFence := "```json"
  const Fence := "```"

  /** An opening "```json" fence starts with a plain fence. */
  lemma JsonFenceIsFence(s: string, k: int)
    requires OccursAt(s, JsonFence, k)
    ensures OccursAt(s, Fence, k)
  {
    assert s[k..k + |Fence|] == s[k..k + |JsonFence|][..|Fence|];
  }

  /** The text of a reply the JSON decoder is given: the stripped reply,
      narrowed to the inside of its first code fence when it has one, a
      "```json" fence taking precedence over a bare one. */
  function Payload(responseText: string): (r: string)
    ensures |r| > 0 ==> !IsSpace(r[0]) && !IsSpace(r[|r| - 1])
  {
    var text := Strip(responseText);
    if Contains(text, JsonFence) then Strip(Split(Split(text, JsonFence)[1], Fence)[0])
    else if Contains(text, Fence) then Strip(Split(Split(text, Fence)[1], Fence)[0])
    else text
  }

  /** Reference reading: what follows the first `open` up to the next
      fence, or to the end when no fence follows. */
  function Fenced(text: string, open: string): (r: string)
    requires Contains(text, open)
    ensures !Contains(r, Fence)
  {
    var rest := text[IndexOf(text, open).value + |open|..];
    match IndexOf(rest, Fence)
    case None => rest
    case Some(j) =>
      IndexOfPrefix(rest, Fence, j);
      rest[..j]
  }

  /** The next plain fence after the first "```json" is not the start of a
      run of four or more backticks that also opens the next "```json". */
  predicate CloserClear(text: string) {
    Contains(text, JsonFence) ==>
      var rest := text[IndexOf(text, JsonFence).value + |JsonFence|..];
      match (IndexOf(rest, Fence), IndexOf(rest, JsonFence))
      case (Some(j), Some(m)) => !(j < m < j + |Fence|)
      case _ => true
  }

  /** A reply without any fence is decoded whole, stripped. */
  lemma PayloadWithoutFence(responseText: string)
    requires !Contains(Strip(responseText), Fence)
    ensures Payload(responseText) == Strip(responseText)
  {
    var text := Strip(responseText);
    if Contains(text, JsonFence) {
      var k :| OccursAt(text, JsonFence, k);
      JsonFenceIsFence(text, k);
    }
  }

  /** A reply with a bare fence and no "```json" one: the payload is the
      text between the first fence and the next (or the end), stripped. */
  lemma PayloadBareFence(responseText: string)
    requires !Contains(Strip(responseText), JsonFence) && Contains(Strip(responseText), Fence)
    ensures Payload(responseText) == Strip(Fenced(Strip(responseText), Fence))
  {
    var text := Strip(responseText);
    SplitSecond(text, Fence);
    var rest := text[IndexOf(text, Fence).value + |Fence|..];
    SplitHead(rest, Fence);
    var piece := Split(rest, Fence)[0];
    assert piece == Fenced(text, Fence);
    SplitHead(piece, Fence);
  }

  /** Cut at the next "```json" and then at the next fence, the text after
      an opening "```json" keeps what comes before its first fence, unless
      that fence is the start of a longer run that opens the next "```json". */
  lemma FirstPieceBeforeFence(rest: string)
    requires match (IndexOf(rest, Fence), IndexOf(rest, JsonFence))
      case (Some(j), Some(m)) => !(j < m < j + |Fence|)
      case _ => true
    ensures Split(Split(rest, JsonFence)[0], Fence)[0]
      == match IndexOf(rest, Fence) case None => rest case Some(j) => rest[..j]
  {
    SplitHead(rest, JsonFence);
    var piece := Split(rest, JsonFence)[0];
    SplitHead(piece, Fence);
    match IndexOf(rest, JsonFence)
    case None =>
      assert piece == rest;
    case Some(m) =>
      assert piece == rest[..m];
      FenceBeforeJsonFence(rest, m);
  }

  /** Before the next "```json", at `m`, the first fence is the first fence
      of the whole text, which comes no later than `m`. */
  lemma FenceBeforeJsonFence(rest: string, m: nat)
    requires IndexOf(rest, JsonFence) == Some(m)
    requires match IndexOf(rest, Fence) case Some(j) => !(j < m < j + |Fence|) case None => true
    ensures Split(rest[..m], Fence)[0] == match IndexOf(rest, Fence) case None => rest case Some(j) => rest[..j]
  {
    JsonFenceIsFence(rest, m);
    var j := IndexOf(rest, Fence).value;
    assert j <= m;
    IndexOfPrefix(rest, Fence, m);
    SplitHead(rest[..m], Fence);
    if j < m {
      assert rest[..m][..j] == rest[..j];
    }
  }

  /** A reply with a "```json" fence: the payload is the text between the
      first "```json" and the next fence (or the end), stripped.  Any bare
      fence before the "```json" one is passed over. */
  lemma PayloadJsonFence(responseText: string)
    requires Contains(Strip(responseText), JsonFence) && CloserClear(Strip(responseText))
    ensures Payload(responseText) == Strip(Fenced(Strip(responseText), JsonFence))
  {
    var text := Strip(responseText);
    SplitSecond(text, JsonFence);
    var rest := text[IndexOf(text, JsonFence).value + |JsonFence|..];
    FirstPieceBeforeFence(rest);
  }

  // ---- decoding the scenario list ----

  /** What the JSON decoder makes of a payload: no JSON at all, an object
      (with or without a "scenarios" entry), or some other JSON value. */
  datatype Decoded = Malformed | Object(scenarios: Option<seq<Scenario>>) | NotAnObject

  /** The two ways reading a reply can fail: the decoder's error, turned
      into a `ValueError`; or a JSON value that is not an object, on which
      the dictionary lookup raises an `AttributeError`. */
  datatype ParseError = ValueError(message: string) | AttributeError

  const JsonErrorMessage := "Failed to parse Claude's response as JSON"

  /** `_parse_scenarios`: the scenario list of a reply, empty when the
      object has no "scenarios" entry.  The decoder is a parameter. */
  function ParseScenarios(responseText: string, decode: string -> Decoded): (r: Result<seq<Scenario>, ParseError>)
    ensures r.Success? <==> decode(Payload(responseText)).Object?
    ensures r == Failure(ValueError(JsonErrorMessage)) <==> decode(Payload(responseText)).Malformed?
    ensures decode(Payload(responseText)) == Object(None) ==> r == Success([])
    ensures decode(Payload(responseText)).Object? && decode(Payload(responseText)).scenarios.Some? ==>
      r == Success(decode(Payload(responseText)).scenarios.value)
  {
    match decode(Payload(responseText))
    case Malformed => Failure(ValueError(JsonErrorMessage))
    case NotAnObject => Failure(AttributeError)
    case Object(scenarios) => Success(scenarios.GetOr([]))
  }

  // ---- the scenario summary ----

  /** The first key a summary line reads that the assignment lacks, in the
      order the lines read them (a missing key raises `KeyError`). */
  function MissingKey(a: Assignment): Option<string> {
    if a.startTime.None? then Some("start_time")
    else if a.endTime.None? then Some("end_time")
    else if a.members.None? then Some("members")
    else if a.roomName.None? then Some("room_name")
    else if a.theme.None? then Some("theme")
    else if a.memberCount.None? then Some("member_count")
    else None
  }

  function TravelMinutes(a: Assignment): int {
    a.travelTimeFromPrevious.GetOr(0)
  }

  /** The notes are present and non-empty (Python truthiness). */
  predicate HasNotes(a: Assignment) {
    a.notes.Some? && a.notes.value != ""
  }

  function TravelLine(a: Assignment): string {
    "  - 이동 시간: " + IntToString(TravelMinutes(a)) + "분"
  }

  function MemoLine(a: Assignment): string
    requires a.notes.Some?
  {
    "  - 메모: " + a.notes.value
  }

  /** The lines of one assignment: its time, room and theme; its members;
      a travel line exactly when the travel time is positive; a memo line
      exactly when it has notes. */
  function AssignmentLines(a: Assignment): (r: Result<seq<string>, string>)
    ensures r.Failure? <==> MissingKey(a).Some?
    ensures r.Failure? ==> r.error == MissingKey(a).value
    ensures r.Success? ==> |r.value| == 2 + (if TravelMinutes(a) > 0 then 1 else 0) + (if HasNotes(a) then 1 else 0)
    ensures r.Success? && TravelMinutes(a) > 0 ==> r.value[2] == TravelLine(a)
    ensures r.Success? && HasNotes(a) ==> r.value[|r.value| - 1] == MemoLine(a)
  {
    match MissingKey(a)
    case Some(key) => Failure(key)
    case None =>
      var timeStr := a.startTime.value + "-" + a.endTime.value;
      var membersStr := Join(", ", a.members.value);
      var lines := ["- **" + timeStr + "** | " + a.roomName.value + " (" + a.theme.value + ")",
                    "  - 참여자 (" + IntToString(a.memberCount.value) + "명): " + membersStr];
      var lines := if TravelMinutes(a) > 0 then lines + [TravelLine(a)] else lines;
      var lines := if HasNotes(a) then lines + [MemoLine(a)] else lines;
      Success(lines)
  }

  /** The lines of a team's assignments, in order; the first missing key
      stops it. */
  function TeamLines(assignments: seq<Assignment>): (r: Result<seq<string>, string>)
    ensures r.Success? ==> |r.value| >= 2 * |assignments|
    decreases |assignments|
  {
    if assignments == [] then Success([])
    else
      match TeamLines(assignments[..|assignments| - 1])
      case Failure(e) => Failure(e)
      case Success(lines) =>
        match AssignmentLines(assignments[|assignments| - 1])
        case Failure(e) => Failure(e)
        case Success(more) => Success(lines + more)
  }

  function TeamHeading(id: string): string {
    "### 팀 " + id
  }

  /** The blocks of all teams in key order: a heading, the team's lines and
      a blank line each. */
  function TeamsLines(teams: seq<(string, seq<Assignment>)>): (r: Result<seq<string>, string>)
    ensures r.Success? ==> |r.value| >= 2 * |teams|
    decreases |teams|
  {
    if teams == [] then Success([])
    else
      match TeamsLines(teams[..|teams| - 1])
      case Failure(e) => Failure(e)
      case Success(lines) =>
        var team := teams[|teams| - 1];
        match TeamLines(team.1)
        case Failure(e) => Failure(e)
        case Success(more) => Success(lines + [TeamHeading(team.0)] + more + [""])
  }

  /** Every assignment of every team has the keys the summary reads. */
  predicate AllComplete(teams: seq<(string, seq<Assignment>)>) {
    forall i, k :: 0 <= i < |teams| && 0 <= k < |teams[i].1| ==> MissingKey(teams[i].1[k]).None?
  }

  /** All the lines of a summary; "teams", "pros" and "cons" default to
      empty, "name" and "description" are required. */
  function SummaryLines(scenario: Scenario): (r: Result<seq<string>, string>)
    ensures scenario.name.None? ==> r == Failure("name")
    ensures scenario.name.Some? && scenario.description.None? ==> r == Failure("description")
    ensures r.Success? ==> |r.value| >= 6
    ensures r.Success? ==> r.value[..2] == ["## " + scenario.name.value, scenario.description.value + "\n"]
    ensures r.Success? ==> r.value[|r.value| - 4..] == ["### 장점", scenario.pros.GetOr(""), "\n### 단점", scenario.cons.GetOr("")]
    ensures r.Success? ==>
      && TeamsLines(scenario.teams.GetOr([])).Success?
      && r.value == ["## " + scenario.name.value, scenario.description.value + "\n"]
           + TeamsLines(scenario.teams.GetOr([])).value
           + ["### 장점", scenario.pros.GetOr(""), "\n### 단점", scenario.cons.GetOr("")]
  {
    if scenario.name.None? then Failure("name")
    else if scenario.description.None? then Failure("description")
    else
      match TeamsLines(scenario.teams.GetOr([]))
      case Failure(e) => Failure(e)
      case Success(body) =>
        var head := ["## " + scenario.name.value, scenario.description.value + "\n"];
        var tail := ["### 장점", scenario.pros.GetOr(""), "\n### 단점", scenario.cons.GetOr("")];
        assert (head + body + tail)[..2] == head;
        assert (head + body + tail)[|head + body + tail| - 4..] == tail;
        Success(head + body + tail)
  }

  /** `format_scenario_summary(scenario)`: the summary lines joined by
      newlines; a missing required key is reported by name. */
  function Summary(scenario: Scenario): (r: Result<string, string>)
    ensures r.Failure? <==> SummaryLines(scenario).Failure?
    ensures r.Success? ==>
      var title := "## " + scenario.name.value + "\n";
      |r.value| >= |title| && r.value[..|title|] == title
  {
    match SummaryLines(scenario)
    case Failure(e) => Failure(e)
    case Success(lines) =>
      var text := Join("\n", lines);
      assert text == lines[0] + "\n" + Join("\n", lines[1..]);
      assert text[..|lines[0] + "\n"|] == lines[0] + "\n";
      Success(text)
  }

  // ---- what the summary is known to satisfy ----

  /** The block of one team: its heading, its lines and a blank line; empty
      when its lines cannot be written. */
  function HeadedBlock(team: (string, seq<Assignment>)): seq<string> {
    match TeamLines(team.1)
    case Failure(_) => []
    case Success(lines) => [TeamHeading(team.0)] + lines + [""]
  }

  /** Reference reading of the team blocks, first team first. */
  function Blocks(teams: seq<(string, seq<Assignment>)>): seq<string>
    decreases |teams|
  {
    if teams == [] then [] else HeadedBlock(teams[0]) + Blocks(teams[1..])
  }

  /** Adding a team at the end adds its block at the end. */
  lemma {:induction false} BlocksAppend(teams: seq<(string, seq<Assignment>)>, team: (string, seq<Assignment>))
    ensures Blocks(teams + [team]) == Blocks(teams) + HeadedBlock(team)
    decreases |teams|
  {
    if teams == [] {
      assert [team][1..] == [];
    } else {
      assert (teams + [team])[1..] == teams[1..] + [team];
      BlocksAppend(teams[1..], team);
    }
  }

  /** The team blocks of a summary that can be written are, team by team in
      key order, a "### 팀 {id}" heading, the team's lines and a blank line. */
  lemma {:induction false} TeamsLinesBlocks(teams: seq<(string, seq<Assignment>)>)
    requires TeamsLines(teams).Success?
    ensures forall i :: 0 <= i < |teams| ==> TeamLines(teams[i].1).Success?
    ensures TeamsLines(teams).value == Blocks(teams)
    decreases |teams|
  {
    if teams != [] {
      var n := |teams|;
      var init := teams[..n - 1];
      TeamsLinesLastBlock(teams);
      TeamsLinesBlocks(init);
      BlocksAppend(init, teams[n - 1]);
      assert init + [teams[n - 1]] == teams;
      forall i | 0 <= i < n ensures TeamLines(teams[i].1).Success? {
        if i < n - 1 {
          assert init[i] == teams[i];
        }
      }
    }
  }

  /** A team's lines that cannot be written name the missing key of one of
      its assignments. */
  lemma {:induction false} TeamLinesErrorKey(assignments: seq<Assignment>)
    requires TeamLines(assignments).Failure?
    ensures exists k :: 0 <= k < |assignments| && MissingKey(assignments[k]) == Some(TeamLines(assignments).error)
    decreases |assignments|
  {
    var n := |assignments|;
    var init := assignments[..n - 1];
    if TeamLines(init).Failure? {
      TeamLinesErrorKey(init);
      var k :| 0 <= k < |init| && MissingKey(init[k]) == Some(TeamLines(init).error);
      assert init[k] == assignments[k];
    } else {
      assert MissingKey(assignments[n - 1]) == Some(TeamLines(assignments).error);
    }
  }

  /** Team blocks that cannot be written name the missing key of one
      assignment of one team. */
  lemma {:induction false} TeamsLinesErrorKey(teams: seq<(string, seq<Assignment>)>)
    requires TeamsLines(teams).Failure?
    ensures exists i, k :: 0 <= i < |teams| && 0 <= k < |teams[i].1| && MissingKey(teams[i].1[k]) == Some(TeamsLines(teams).error)
    decreases |teams|
  {
    var n := |teams|;
    var init := teams[..n - 1];
    if TeamsLines(init).Failure? {
      TeamsLinesErrorKey(init);
      var i, k :| 0 <= i < |init| && 0 <= k < |init[i].1| && MissingKey(init[i].1[k]) == Some(TeamsLines(init).error);
      assert init[i] == teams[i];
    } else {
      TeamLinesErrorKey(teams[n - 1].1);
      var k :| 0 <= k < |teams[n - 1].1| && MissingKey(teams[n - 1].1[k]) == Some(TeamsLines(teams).error);
      assert MissingKey(teams[n - 1].1[k]) == Some(TeamsLines(teams).error);
    }
  }

  /** Regrouping a concatenation of four sequences. */
  lemma ConcatAssoc<T>(a: seq<T>, b: seq<T>, c: seq<T>, d: seq<T>)
    ensures a + b + c + d == a + (b + c + d)
  {
  }

  /** A written set of blocks is that of the teams before the last followed
      by the last team's block. */
  lemma TeamsLinesLastBlock(teams: seq<(string, seq<Assignment>)>)
    requires teams != [] && TeamsLines(teams).Success?
    ensures TeamsLines(teams[..|teams| - 1]).Success? && TeamLines(teams[|teams| - 1].1).Success?
    ensures TeamsLines(teams).value == TeamsLines(teams[..|teams| - 1]).value + HeadedBlock(teams[|teams| - 1])
  {
    var last := teams[|teams| - 1];
    var lines := TeamsLines(teams[..|teams| - 1]).value;
    var more := TeamLines(last.1).value;
    var block := [TeamHeading(last.0)] + more + [""];
    assert TeamsLines(teams).value == lines + [TeamHeading(last.0)] + more + [""];
    ConcatAssoc(lines, [TeamHeading(last.0)], more, [""]);
  }

  /** A written summary is the title and description, every team's block in
      key order, then the pros and cons. */
  lemma SummaryBlocks(scenario: Scenario)
    requires SummaryLines(scenario).Success?
    ensures SummaryLines(scenario).value ==
      ["## " + scenario.name.value, scenario.description.value + "\n"]
      + Blocks(scenario.teams.GetOr([]))
      + ["### 장점", scenario.pros.GetOr(""), "\n### 단점", scenario.cons.GetOr("")]
  {
    TeamsLinesBlocks(scenario.teams.GetOr([]));
  }

  /** A team's lines fail exactly when one of its assignments lacks a key. */
  lemma {:induction false} TeamLinesFailIff(assignments: seq<Assignment>)
    ensures TeamLines(assignments).Failure? <==> exists k :: 0 <= k < |assignments| && MissingKey(assignments[k]).Some?
    decreases |assignments|
  {
    if assignments != [] {
      var n := |assignments|;
      var init := assignments[..n - 1];
      TeamLinesFailIff(init);
      if TeamLines(assignments).Failure? {
        if TeamLines(init).Failure? {
          var k :| 0 <= k < |init| && MissingKey(init[k]).Some?;
          assert init[k] == assignments[k];
        } else {
          assert MissingKey(assignments[n - 1]).Some?;
        }
      } else {
        forall k | 0 <= k < n ensures MissingKey(assignments[k]).None? {
          if k < n - 1 {
            assert init[k] == assignments[k];
          }
        }
      }
    }
  }

  /** The team blocks succeed exactly when those of the teams before the
      last and the last team's lines do. */
  lemma TeamsLinesStep(teams: seq<(string, seq<Assignment>)>)
    requires teams != []
    ensures TeamsLines(teams).Success? <==>
      TeamsLines(teams[..|teams| - 1]).Success? && TeamLines(teams[|teams| - 1].1).Success?
  {
  }

  /** Every assignment of a team has the keys its lines read. */
  predicate TeamComplete(assignments: seq<Assignment>) {
    forall k :: 0 <= k < |assignments| ==> MissingKey(assignments[k]).None?
  }

  /** Every team is complete exactly when those before the last are and
      the last one is. */
  lemma AllCompleteSplit(teams: seq<(string, seq<Assignment>)>)
    requires teams != []
    ensures AllComplete(teams) <==>
      AllComplete(teams[..|teams| - 1]) && TeamComplete(teams[|teams| - 1].1)
  {
    var n := |teams|;
    var init := teams[..n - 1];
    if AllComplete(init) && TeamComplete(teams[n - 1].1) {
      forall i, k | 0 <= i < n && 0 <= k < |teams[i].1| ensures MissingKey(teams[i].1[k]).None? {
        if i < n - 1 {
          assert init[i] == teams[i];
        }
      }
    }
    if AllComplete(teams) {
      forall i, k | 0 <= i < |init| && 0 <= k < |init[i].1| ensures MissingKey(init[i].1[k]).None? {
        assert init[i] == teams[i];
      }
    }
  }

  /** The team blocks fail exactly when some assignment lacks a key. */
  lemma {:induction false} TeamsLinesFailIff(teams: seq<(string, seq<Assignment>)>)
    ensures TeamsLines(teams).Success? <==> AllComplete(teams)
    decreases |teams|
  {
    if teams != [] {
      TeamsLinesFailIff(teams[..|teams| - 1]);
      TeamLinesFailIff(teams[|teams| - 1].1);
      TeamsLinesStep(teams);
      AllCompleteSplit(teams);
    }
  }

  /** A summary can be written exactly when the name and description are
      present and every assignment has the keys its lines read. */
  lemma SummaryIffComplete(scenario: Scenario)
    ensures Summary(scenario).Success? <==>
      scenario.name.Some? && scenario.description.Some? && AllComplete(scenario.teams.GetOr([]))
  {
    TeamsLinesFailIff(scenario.teams.GetOr([]));
  }

  /** The blocks of the first `m` teams of a summary that can be written
      begin its blocks. */
  lemma {:induction false} TeamsLinesPrefix(teams: seq<(string, seq<Assignment>)>, m: nat)
    requires m <= |teams| && TeamsLines(teams).Success?
    ensures TeamsLines(teams[..m]).Success?
    ensures TeamsLines(teams[..m]).value <= TeamsLines(teams).value
    decreases |teams| - m
  {
    if m == |teams| {
      assert teams[..m] == teams;
    } else {
      TeamsLinesPrefix(teams, m + 1);
      var pre := teams[..m + 1];
      assert pre[..|pre| - 1] == teams[..m];
    }
  }

  /** The marks that tell the lines of an assignment apart: the first line
      opens with '-', the others with "  - " and a word of their own. */
  lemma LineMarks(a: Assignment)
    requires MissingKey(a).None?
    ensures AssignmentLines(a).value[0][0] == '-'
    ensures |AssignmentLines(a).value[1]| >= 6 && AssignmentLines(a).value[1][4] == '참'
    ensures |TravelLine(a)| >= 6 && TravelLine(a)[..6] == "  - 이동"
    ensures a.notes.Some? ==> |MemoLine(a)| >= 6 && MemoLine(a)[..6] == "  - 메모"
  {
    var lines := AssignmentLines(a).value;
    assert lines[1][..6] == "  - 참여";
    assert TravelLine(a)[..6] == "  - 이동";
    if a.notes.Some? {
      assert MemoLine(a)[..6] == "  - 메모";
    }
  }

  /** The travel line appears exactly when the travel time is positive. */
  lemma AssignmentLinesTravel(a: Assignment)
    requires MissingKey(a).None?
    ensures TravelMinutes(a) > 0 <==> TravelLine(a) in AssignmentLines(a).value
  {
    var lines := AssignmentLines(a).value;
    LineMarks(a);
    if TravelMinutes(a) <= 0 {
      forall k | 0 <= k < |lines| ensures lines[k] != TravelLine(a) {
        if k == 0 {
          assert lines[k][0] != TravelLine(a)[0];
        } else if k == 1 {
          assert lines[k][4] != TravelLine(a)[4];
        } else {
          assert lines[k] == MemoLine(a);
          assert lines[k][4] != TravelLine(a)[4];
        }
      }
    }
  }

  /** The memo line appears exactly when there are notes. */
  lemma AssignmentLinesMemo(a: Assignment)
    requires MissingKey(a).None?
    ensures HasNotes(a) <==> exists line :: line in AssignmentLines(a).value && |line| >= 6 && line[..6] == "  - 메모"
  {
    var lines := AssignmentLines(a).value;
    LineMarks(a);
    if HasNotes(a) {
      assert lines[|lines| - 1] in lines;
    } else {
      forall k | 0 <= k < |lines| && |lines[k]| >= 6 ensures lines[k][..6] != "  - 메모" {
        if k == 0 {
          assert lines[k][..6][0] != "  - 메모"[0];
        } else if k == 1 {
          assert lines[k][..6][4] != "  - 메모"[4];
        } else {
          assert lines[k] == TravelLine(a);
        }
      }
    }
  }

  // ---- the imperative summary ----

  /** The lines of one team's assignments, appended one assignment at a time. */
  method TeamBlock(assignments: seq<Assignment>) returns (r: Result<seq<string>, string>)
    ensures r == TeamLines(assignments)
  {
    var lines := [];
    for k := 0 to |assignments|
      invariant TeamLines(assignments[..k]) == Success(lines)
    {
      assert assignments[..k + 1][..k] == assignments[..k];
      var assignment := assignments[k];
      var more := AssignmentLines(assignment);
      if more.Failure? {
        TeamLinesFails(assignments, k + 1);
        return Failure(more.error);
      }
      lines := lines + more.value;
    }
    assert assignments[..|assignments|] == assignments;
    r := Success(lines);
  }

  /** A failing prefix makes the whole team fail the same way. */
  lemma {:induction false} TeamLinesFails(assignments: seq<Assignment>, m: nat)
    requires m <= |assignments| && TeamLines(assignments[..m]).Failure?
    ensures TeamLines(assignments) == TeamLines(assignments[..m])
    decreases |assignments| - m
  {
    if m < |assignments| {
      assert assignments[..m + 1][..m] == assignments[..m];
      TeamLinesFails(assignments, m + 1);
    } else {
      assert assignments[..m] == assignments;
    }
  }

  /** A failing prefix of the teams makes the whole fail the same way. */
  lemma {:induction false} TeamsLinesFails(teams: seq<(string, seq<Assignment>)>, m: nat)
    requires m <= |teams| && TeamsLines(teams[..m]).Failure?
    ensures TeamsLines(teams) == TeamsLines(teams[..m])
    decreases |teams| - m
  {
    if m < |teams| {
      assert teams[..m + 1][..m] == teams[..m];
      TeamsLinesFails(teams, m + 1);
    } else {
      assert teams[..m] == teams;
    }
  }

  /** The blocks of all teams, appended one team at a time. */
  method TeamBlocks(teams: seq<(string, seq<Assignment>)>) returns (r: Result<seq<string>, string>)
    ensures r == TeamsLines(teams)
  {
    var lines := [];
    for i := 0 to |teams|
      invariant TeamsLines(teams[..i]) == Success(lines)
    {
      assert teams[..i + 1][..i] == teams[..i];
      assert teams[..i + 1][i] == teams[i];
      lines := lines + [TeamHeading(teams[i].0)];
      var block := TeamBlock(teams[i].1);
      if block.Failure? {
        TeamsLinesFails(teams, i + 1);
        return Failure(block.error);
      }
      lines := lines + block.value + [""];
    }
    assert teams[..|teams|] == teams;
    r := Success(lines);
  }

  /** `format_scenario_summary(scenario)`, line by line: the heading and
      description, one block per team, the pros and the cons, joined by
      newlines. */
  method FormatScenarioSummary(scenario: Scenario) returns (r: Result<string, string>)
    ensures r == Summary(scenario)
  {
    if scenario.name.None? {
      return Failure("name");
    }
    if scenario.description.None? {
      return Failure("description");
    }
    var lines := ["## " + scenario.name.value, scenario.description.value + "\n"];
    var blocks := TeamBlocks(scenario.teams.GetOr([]));
    if blocks.Failure? {
      return Failure(blocks.error);
    }
    lines := lines + blocks.value;
    lines := lines + ["### 장점", scenario.pros.GetOr(""), "\n### 단점", scenario.cons.GetOr("")];
    r := Success(Join("\n", lines));
  }
}
