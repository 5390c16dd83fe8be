/** The spreadsheet export: finding the spreadsheet id in a sheet URL, the
    message an export failure is reported with, and the timeline table a
    scenario is written as (one column per team, one row per time slot,
    then a summary block). */
module Sheets {
  import opened Wrappers
  import opened Text
  import opened Scenarios

  type Table = seq<seq<string>>

  // ---- spreadsheet id ----

  const SheetPathMarker := "/spreadsheets/d/"
  const InvalidUrlMessage := "❌ 올바른 Google Sheets URL이 아닙니다. URL 형식: https://docs.google.com/spreadsheets/d/..."

  /** The characters of `[a-zA-Z0-9-_]`. */
  predicate IsIdChar(c: char) {
    ('a' <= c <= 'z') || ('A' <= c <= 'Z') || ('0' <= c <= '9') || c == '-' || c == '_'
  }

  /** The length of the run of id characters starting at `k`. */
  function IdRunFrom(s: string, k: nat): (r: nat)
    requires k <= |s|
    ensures k + r <= |s|
    ensures forall t :: k <= t < k + r ==> IsIdChar(s[t])
    ensures k + r < |s| ==> !IsIdChar(s[k + r])
    decreases |s| - k
  {
    if k < |s| && IsIdChar(s[k]) then 1 + IdRunFrom(s, k + 1) else 0
  }

  /** The pattern `/spreadsheets/d/([a-zA-Z0-9-_]+)` matches at `p`: the
      marker, then at least one id character. */
  predicate MatchesAt(s: string, p: nat) {
    OccursAt(s, SheetPathMarker, p) && p + |SheetPathMarker| < |s| && IsIdChar(s[p + |SheetPathMarker|])
  }

  /** The leftmost match at or after `p`, as `re.search` scans. */
  function SearchFrom(s: string, p: nat): (r: Option<nat>)
    requires p <= |s|
    ensures r.Some? ==> p <= r.value && MatchesAt(s, r.value)
    ensures r.Some? ==> forall q :: p <= q < r.value ==> !MatchesAt(s, q)
    ensures r.None? ==> forall q :: p <= q ==> !MatchesAt(s, q)
    decreases |s| - p
  {
    if MatchesAt(s, p) then Some(p)
    else if p == |s| then None
    else SearchFrom(s, p + 1)
  }

  /** `id` is the whole run of id characters after the leftmost match,
      which is at `p`. */
  predicate IdAt(url: string, p: nat, id: string) {
    && MatchesAt(url, p) && (forall q: nat :: q < p ==> !MatchesAt(url, q))
    && var k := p + |SheetPathMarker|;
       && k + |id| <= |url| && url[k..k + |id|] == id
       && (k + |id| < |url| ==> !IsIdChar(url[k + |id|]))
  }

  /** The spreadsheet id of a sheet URL: the whole run of id characters
      after the leftmost marker that is followed by one. */
  function ExtractSpreadsheetId(url: string): (r: Result<string, string>)
    ensures r.Success? <==> exists p :: MatchesAt(url, p)
    ensures r.Failure? ==> r.error == InvalidUrlMessage
    ensures r.Success? ==> |r.value| > 0 && forall i :: 0 <= i < |r.value| ==> IsIdChar(r.value[i])
    ensures r.Success? ==> exists p: nat :: IdAt(url, p, r.value)
  {
    match SearchFrom(url, 0)
    case None => Failure(InvalidUrlMessage)
    case Some(p) =>
      var k := p + |SheetPathMarker|;
      var id := url[k..k + IdRunFrom(url, k)];
      assert forall i :: 0 <= i < |id| ==> id[i] == url[k + i];
      assert IdAt(url, p, id);
      Success(id)
  }

  /** The marker occurs where it is put. */
  lemma MarkerAt(a: string, b: string)
    ensures OccursAt(a + SheetPathMarker + b, SheetPathMarker, |a|)
  {
    assert (a + SheetPathMarker + b)[|a|..|a| + |SheetPathMarker|] == SheetPathMarker;
  }

  /** A run of id characters followed by a character outside the class
      (or by the end of the URL) is read whole. */
  lemma {:induction false} IdRunOf(a: string, b: string, c: string)
    requires forall i :: 0 <= i < |b| ==> IsIdChar(b[i])
    requires c == [] || !IsIdChar(c[0])
    ensures IdRunFrom(a + b + c, |a|) == |b|
    decreases |b|
  {
    if b == [] {
      assert a + b + c == a + c;
    } else {
      assert (a + b + c)[|a|] == b[0];
      assert a + b + c == (a + [b[0]]) + b[1..] + c;
      IdRunOf(a + [b[0]], b[1..], c);
    }
  }

  lemma SampleMatch(u: string)
    requires u == "h/spreadsheets/d/a1_B-2/e"
    ensures SearchFrom(u, 0) == Some(1)
  {
    MarkerAt("h", "a1_B-2/e");
    assert u == "h" + SheetPathMarker + "a1_B-2/e";
    assert u[0..|SheetPathMarker|][0] == 'h' != SheetPathMarker[0];
    assert IsIdChar(u[1 + |SheetPathMarker|]);
  }

  lemma SampleRun(u: string)
    requires u == "h/spreadsheets/d/a1_B-2/e"
    ensures IdRunFrom(u, 17) == 6 && u[17..23] == "a1_B-2"
  {
    IdRunOf("h/spreadsheets/d/", "a1_B-2", "/e");
    assert u == "h/spreadsheets/d/" + "a1_B-2" + "/e";
  }

  /** The id is the run of id characters after the marker; it ends at the
      first character outside the class. */
  lemma ExtractSpreadsheetIdStopsAtSlash()
    ensures ExtractSpreadsheetId("h/spreadsheets/d/a1_B-2/e") == Success("a1_B-2")
  {
    SampleMatch("h/spreadsheets/d/a1_B-2/e");
    SampleRun("h/spreadsheets/d/a1_B-2/e");
  }

  /** A URL ending right after the marker has no id. */
  lemma ExtractSpreadsheetIdNeedsId()
    ensures ExtractSpreadsheetId("s/spreadsheets/d/") == Failure(InvalidUrlMessage)
  {
    var u := "s/spreadsheets/d/";
    forall q | 0 <= q ensures !MatchesAt(u, q) { }
  }

  /** The storage quota test of the export's error handler. */
  predicate IsQuotaError(message: string) {
    Contains(message, "storageQuotaExceeded") || Contains(Lower(message), "storage quota")
  }

  const PermissionPrefix := "❌ Google Sheets API 권한 오류: "
  const CreationPrefix := "❌ Google Sheets 생성 실패: "

  /** The message an export failure reaches the caller with: a storage
      quota failure gets its own explanation; any other failure keeps the
      original message after a prefix that marks a 403 as a permission
      error. */
  function ExportErrorMessage(message: string): (r: string)
    ensures |r| > 0 && r[0] == '❌'
    ensures IsQuotaError(message) ==> r == QuotaMessage
    ensures !IsQuotaError(message) ==> |r| > |message| && r[|r| - |message|..] == message
    ensures !IsQuotaError(message) ==>
      (r[..|r| - |message|] == PermissionPrefix <==> Contains(message, "403"))
  {
    if IsQuotaError(message) then
      assert QuotaMessage[0] == '❌';
      QuotaMessage
    else
      var prefix := if Contains(message, "403") then PermissionPrefix else CreationPrefix;
      var r := prefix + message;
      assert r[0] == prefix[0] == '❌';
      assert r[|prefix|..] == message && r[..|prefix|] == prefix;
      assert CreationPrefix != PermissionPrefix by {
        assert |CreationPrefix| != |PermissionPrefix|;
      }
      r
  }

  const QuotaMessage := "❌" + " Service Account로 생성된 시트는 공유 드라이브에 저장됩니다.\n"
    + "해결 방법:\n"
    + "1. Service Account 이메일을 Google Drive에서 찾아 파일 삭제\n"
    + "2. 또는 '📥 CSV 다운로드' 버튼을 사용하세요"

  // ---- cell contents ----

  /** The member list of a cell: every name when there are at most three,
      otherwise the first three and how many more. */
  function MemberText(names: seq<string>): (r: string)
    ensures |names| <= 3 ==> forall k :: 0 <= k < |names| ==> Contains(r, names[k])
    ensures |names| > 3 ==> r == MemberText(names[..3]) + " 외 " + NatToString(|names| - 3) + "명"
    ensures forall k :: 0 <= k < |names| && k < 3 ==> Contains(r, names[k])
  {
    if |names| <= 3 then
      JoinContainsAll(", ", names);
      Join(", ", names)
    else
      var r := Join(", ", names[..3]) + " 외 " + NatToString(|names| - 3) + "명";
      JoinContainsAll(", ", names[..3]);
      forall k | 0 <= k < 3 ensures Contains(r, names[k]) {
        assert names[..3][k] == names[k];
        var tail := " 외 " + NatToString(|names| - 3) + "명";
        assert r == Join(", ", names[..3]) + tail;
        ContainsExtend(Join(", ", names[..3]), tail, names[k]);
      }
      r
  }

  /** The notes test as written: `notes and "점심" in notes or "저녁" in
      notes or "식사" in notes`. */
  predicate MentionsMeal(notes: string) {
    (notes != "" && Contains(notes, "점심")) || Contains(notes, "저녁") || Contains(notes, "식사")
  }

  /** Despite the missing parentheses, the notes are shown exactly when they
      mention one of the three meal words. */
  lemma MentionsMealIffMarker(notes: string)
    ensures MentionsMeal(notes) <==> Contains(notes, "점심") || Contains(notes, "저녁") || Contains(notes, "식사")
  {
    if notes == "" {
      assert !OccursAt(notes, "점심", 0);
    }
  }

  /** The content of a cell for an assignment; a missing `room_name` or
      `theme` is a `KeyError` naming that key. */
  function CellText(a: Assignment): (r: Result<string, string>)
    ensures a.roomName.None? ==> r == Failure("room_name")
    ensures a.roomName.Some? && a.theme.None? ==> r == Failure("theme")
    ensures r.Success? <==> a.roomName.Some? && a.theme.Some?
    ensures r.Success? ==> |r.value| > 0
  {
    match (a.roomName, a.theme)
    case (None, _) => Failure("room_name")
    case (Some(_), None) => Failure("theme")
    case (Some(room), Some(theme)) =>
      Success(TravelPrefix(a.travelTimeFromPrevious.GetOr(0)) + room + "\n(" + theme + ")\n"
              + MemberText(a.members.GetOr([])) + NotesSuffix(a.notes.GetOr("")))
  }

  /** `[이동 {t}분]` on a line of its own, for a positive travel time only. */
  function TravelPrefix(travel: int): (r: string)
    ensures r != "" <==> travel > 0
  {
    if travel > 0 then "[이동 " + IntToString(travel) + "분]\n" else ""
  }

  /** The notes on a line of their own, for notes that mention a meal only. */
  function NotesSuffix(notes: string): (r: string)
    ensures r != "" <==> Contains(notes, "점심") || Contains(notes, "저녁") || Contains(notes, "식사")
  {
    MentionsMealIffMarker(notes);
    if MentionsMeal(notes) then "\n📍 " + notes else ""
  }

  /** A team's cell in the row starting at `start`: scanning its
      assignments in order, each one that starts then replaces the cell. */
  function Cell(assignments: seq<Assignment>, start: string): (r: Result<string, string>)
    ensures r.Failure? ==> r.error == "room_name" || r.error == "theme"
  {
    if assignments == [] then Success("")
    else
      match Cell(assignments[..|assignments| - 1], start)
      case Failure(e) => Failure(e)
      case Success(c) =>
        var a := assignments[|assignments| - 1];
        if a.startTime == Some(start) then CellText(a) else Success(c)
  }

  /** A cell is empty when no assignment starts at that time. */
  lemma {:induction false} CellEmptyWithoutMatch(assignments: seq<Assignment>, start: string)
    requires forall k :: 0 <= k < |assignments| ==> assignments[k].startTime != Some(start)
    ensures Cell(assignments, start) == Success("")
    decreases |assignments|
  {
    if assignments != [] {
      var init := assignments[..|assignments| - 1];
      forall k | 0 <= k < |init| ensures init[k].startTime != Some(start) {
        assert init[k] == assignments[k];
      }
      CellEmptyWithoutMatch(init, start);
    }
  }

  /** A cell that can be written holds the content of the last assignment
      starting at that time. */
  lemma {:induction false} CellLastMatchWins(assignments: seq<Assignment>, start: string, k: nat)
    requires Cell(assignments, start).Success?
    requires k < |assignments| && assignments[k].startTime == Some(start)
    requires forall l :: k < l < |assignments| ==> assignments[l].startTime != Some(start)
    ensures Cell(assignments, start) == CellText(assignments[k])
    decreases |assignments|
  {
    var last := |assignments| - 1;
    var init := assignments[..last];
    if k < last {
      assert Cell(assignments, start) == Cell(init, start);
      assert init[k] == assignments[k];
      forall l | k < l < |init| ensures init[l].startTime != Some(start) {
        assert init[l] == assignments[l];
      }
      CellLastMatchWins(init, start, k);
    }
  }

  /** A failure in the first `m` assignments is the cell's failure. */
  lemma {:induction false} CellFails(assignments: seq<Assignment>, start: string, m: nat)
    requires m <= |assignments| && Cell(assignments[..m], start).Failure?
    ensures Cell(assignments, start) == Cell(assignments[..m], start)
    decreases |assignments| - m
  {
    if m == |assignments| {
      assert assignments[..m] == assignments;
    } else {
      assert assignments[..m + 1][..m] == assignments[..m];
      CellFails(assignments, start, m + 1);
    }
  }

  // ---- time slots ----

  /** Adds the start and end time of each assignment in order; a missing
      one is a `KeyError`, start first. */
  function AddTimes(acc: set<string>, assignments: seq<Assignment>): (r: Result<set<string>, string>)
    ensures r.Failure? ==> r.error == "start_time" || r.error == "end_time"
  {
    if assignments == [] then Success(acc)
    else
      match AddTimes(acc, assignments[..|assignments| - 1])
      case Failure(e) => Failure(e)
      case Success(s) =>
        var a := assignments[|assignments| - 1];
        if a.startTime.None? then Failure("start_time")
        else if a.endTime.None? then Failure("end_time")
        else Success(s + {a.startTime.value, a.endTime.value})
  }

  /** The set of all start and end times, team by team in key order. */
  function CollectTimes(teams: seq<(string, seq<Assignment>)>): (r: Result<set<string>, string>)
    ensures r.Failure? ==> r.error == "start_time" || r.error == "end_time"
  {
    if teams == [] then Success({})
    else
      match CollectTimes(teams[..|teams| - 1])
      case Failure(e) => Failure(e)
      case Success(s) => AddTimes(s, teams[|teams| - 1].1)
  }

  /** Some assignment among the first `n` teams lacks a time. */
  predicate LacksTime(teams: seq<(string, seq<Assignment>)>, n: int) {
    exists t, k :: 0 <= t < n && t < |teams| && 0 <= k < |teams[t].1|
      && (teams[t].1[k].startTime.None? || teams[t].1[k].endTime.None?)
  }

  /** `s` is a start or end time of some assignment among the first `n` teams. */
  predicate IsTimeOf(teams: seq<(string, seq<Assignment>)>, n: int, s: string) {
    exists t, k :: 0 <= t < n && t < |teams| && 0 <= k < |teams[t].1|
      && (teams[t].1[k].startTime == Some(s) || teams[t].1[k].endTime == Some(s))
  }

  lemma {:induction false} AddTimesSpec(acc: set<string>, assignments: seq<Assignment>)
    ensures AddTimes(acc, assignments).Failure? <==> SomeLacksTime(assignments)
    ensures AddTimes(acc, assignments).Success? ==> forall s :: s in AddTimes(acc, assignments).value <==>
      (s in acc || IsTimeIn(assignments, s))
    decreases |assignments|
  {
    if assignments != [] {
      var init := assignments[..|assignments| - 1];
      AddTimesSpec(acc, init);
      forall k | 0 <= k < |init| ensures init[k] == assignments[k] { }
    }
  }

  /** `s` is a start or end time of one of `assignments`. */
  predicate IsTimeIn(assignments: seq<Assignment>, s: string) {
    exists k :: 0 <= k < |assignments| && (assignments[k].startTime == Some(s) || assignments[k].endTime == Some(s))
  }

  lemma IsTimeOfSplit(teams: seq<(string, seq<Assignment>)>, s: string)
    requires teams != []
    ensures IsTimeOf(teams, |teams|, s) <==>
      IsTimeOf(teams[..|teams| - 1], |teams| - 1, s) || IsTimeIn(teams[|teams| - 1].1, s)
  {
    var init := teams[..|teams| - 1];
    var last := |teams| - 1;
    if IsTimeOf(teams, |teams|, s) {
      var t, k :| 0 <= t < |teams| && 0 <= k < |teams[t].1|
        && (teams[t].1[k].startTime == Some(s) || teams[t].1[k].endTime == Some(s));
      if t < last {
        assert init[t] == teams[t];
      }
    }
    if IsTimeOf(init, |init|, s) {
      var t, k :| 0 <= t < |init| && 0 <= k < |init[t].1|
        && (init[t].1[k].startTime == Some(s) || init[t].1[k].endTime == Some(s));
      assert teams[t] == init[t];
    }
  }

  /** Some assignment of `assignments` lacks a time. */
  predicate SomeLacksTime(assignments: seq<Assignment>) {
    exists k :: 0 <= k < |assignments| && (assignments[k].startTime.None? || assignments[k].endTime.None?)
  }

  lemma LacksTimeSplit(teams: seq<(string, seq<Assignment>)>)
    requires teams != []
    ensures LacksTime(teams, |teams|) <==>
      LacksTime(teams[..|teams| - 1], |teams| - 1) || SomeLacksTime(teams[|teams| - 1].1)
  {
    var init := teams[..|teams| - 1];
    var last := |teams| - 1;
    if LacksTime(teams, |teams|) {
      var t, k :| 0 <= t < |teams| && 0 <= k < |teams[t].1|
        && (teams[t].1[k].startTime.None? || teams[t].1[k].endTime.None?);
      if t < last {
        assert init[t] == teams[t];
      }
    }
    if LacksTime(init, |init|) {
      var t, k :| 0 <= t < |init| && 0 <= k < |init[t].1|
        && (init[t].1[k].startTime.None? || init[t].1[k].endTime.None?);
      assert teams[t] == init[t];
    }
  }

  /** Collecting the times fails exactly when some assignment lacks one. */
  lemma {:induction false} CollectTimesFailure(teams: seq<(string, seq<Assignment>)>)
    ensures CollectTimes(teams).Failure? <==> LacksTime(teams, |teams|)
    decreases |teams|
  {
    if teams != [] {
      var init := teams[..|teams| - 1];
      CollectTimesFailure(init);
      LacksTimeSplit(teams);
      if CollectTimes(init).Success? {
        AddTimesSpec(CollectTimes(init).value, teams[|teams| - 1].1);
      }
    }
  }

  /** Collected times are all the start and end times. */
  lemma {:induction false} CollectTimesValue(teams: seq<(string, seq<Assignment>)>)
    requires CollectTimes(teams).Success?
    ensures forall s :: s in CollectTimes(teams).value <==> IsTimeOf(teams, |teams|, s)
    decreases |teams|
  {
    if teams != [] {
      var init := teams[..|teams| - 1];
      var last := |teams| - 1;
      CollectTimesValue(init);
      AddTimesSpec(CollectTimes(init).value, teams[last].1);
      forall s ensures s in CollectTimes(teams).value <==> IsTimeOf(teams, |teams|, s) {
        IsTimeOfSplit(teams, s);
      }
    }
  }

  lemma {:induction false} AddTimesFails(acc: set<string>, assignments: seq<Assignment>, m: nat)
    requires m <= |assignments| && AddTimes(acc, assignments[..m]).Failure?
    ensures AddTimes(acc, assignments) == AddTimes(acc, assignments[..m])
    decreases |assignments| - m
  {
    if m == |assignments| {
      assert assignments[..m] == assignments;
    } else {
      assert assignments[..m + 1][..m] == assignments[..m];
      AddTimesFails(acc, assignments, m + 1);
    }
  }

  lemma {:induction false} CollectTimesFails(teams: seq<(string, seq<Assignment>)>, m: nat)
    requires m <= |teams| && CollectTimes(teams[..m]).Failure?
    ensures CollectTimes(teams) == CollectTimes(teams[..m])
    decreases |teams| - m
  {
    if m == |teams| {
      assert teams[..m] == teams;
    } else {
      assert teams[..m + 1][..m] == teams[..m];
      CollectTimesFails(teams, m + 1);
    }
  }

  // ---- rows ----

  /** The cells of one time row, one per team id in the given order. */
  function RowCells(teams: Teams, ids: seq<string>, start: string): (r: Result<seq<string>, string>)
    requires forall k :: 0 <= k < |ids| ==> ids[k] in TeamIds(teams)
    ensures r.Failure? ==> r.error == "room_name" || r.error == "theme"
  {
    if ids == [] then Success([])
    else
      match RowCells(teams, ids[..|ids| - 1], start)
      case Failure(e) => Failure(e)
      case Success(cs) =>
        match Cell(AssignmentsOf(teams, ids[|ids| - 1]), start)
        case Failure(e) => Failure(e)
        case Success(c) => Success(cs + [c])
  }

  lemma {:induction false} RowCellsShape(teams: Teams, ids: seq<string>, start: string)
    requires forall k :: 0 <= k < |ids| ==> ids[k] in TeamIds(teams)
    requires RowCells(teams, ids, start).Success?
    ensures |RowCells(teams, ids, start).value| == |ids|
    ensures forall k :: 0 <= k < |ids| ==>
      Cell(AssignmentsOf(teams, ids[k]), start) == Success(RowCells(teams, ids, start).value[k])
    decreases |ids|
  {
    if ids != [] {
      var init := ids[..|ids| - 1];
      RowCellsStep(teams, ids, start);
      RowCellsShape(teams, init, start);
      var cs := RowCells(teams, ids, start).value;
      forall k | 0 <= k < |ids|
        ensures Cell(AssignmentsOf(teams, ids[k]), start) == Success(cs[k])
      {
        if k < |init| {
          assert init[k] == ids[k];
        }
      }
    }
  }

  /** A row that can be written is the row of all teams but the last,
      followed by the last team's cell. */
  lemma RowCellsStep(teams: Teams, ids: seq<string>, start: string)
    requires forall k :: 0 <= k < |ids| ==> ids[k] in TeamIds(teams)
    requires ids != [] && RowCells(teams, ids, start).Success?
    ensures RowCells(teams, ids[..|ids| - 1], start).Success?
    ensures Cell(AssignmentsOf(teams, ids[|ids| - 1]), start).Success?
    ensures RowCells(teams, ids, start).value
      == RowCells(teams, ids[..|ids| - 1], start).value + [Cell(AssignmentsOf(teams, ids[|ids| - 1]), start).value]
  {
  }

  lemma {:induction false} RowCellsFails(teams: Teams, ids: seq<string>, start: string, m: nat)
    requires forall k :: 0 <= k < |ids| ==> ids[k] in TeamIds(teams)
    requires m <= |ids| && RowCells(teams, ids[..m], start).Failure?
    ensures RowCells(teams, ids, start) == RowCells(teams, ids[..m], start)
    decreases |ids| - m
  {
    if m == |ids| {
      assert ids[..m] == ids;
    } else {
      assert ids[..m + 1][..m] == ids[..m];
      RowCellsFails(teams, ids, start, m + 1);
    }
  }

  /** The first `n` time rows: the slot `times[i]-times[i + 1]`, then the
      team cells at `times[i]`. */
  function TimeRows(teams: Teams, ids: seq<string>, times: seq<string>, n: nat): (r: Result<Table, string>)
    requires forall k :: 0 <= k < |ids| ==> ids[k] in TeamIds(teams)
    requires n == 0 || n < |times|
    ensures r.Failure? ==> r.error == "room_name" || r.error == "theme"
  {
    if n == 0 then Success([])
    else
      match TimeRows(teams, ids, times, n - 1)
      case Failure(e) => Failure(e)
      case Success(rows) =>
        match RowCells(teams, ids, times[n - 1])
        case Failure(e) => Failure(e)
        case Success(cells) => Success(rows + [[times[n - 1] + "-" + times[n]] + cells])
  }

  lemma {:induction false} TimeRowsLength(teams: Teams, ids: seq<string>, times: seq<string>, n: nat)
    requires forall k :: 0 <= k < |ids| ==> ids[k] in TeamIds(teams)
    requires n == 0 || n < |times|
    requires TimeRows(teams, ids, times, n).Success?
    ensures |TimeRows(teams, ids, times, n).value| == n
  {
    if n > 0 {
      TimeRowsLength(teams, ids, times, n - 1);
    }
  }

  /** Row `i` of the time rows: its slot label, then the cells at `times[i]`. */
  lemma {:induction false} TimeRowAt(teams: Teams, ids: seq<string>, times: seq<string>, n: nat, i: nat)
    requires forall k :: 0 <= k < |ids| ==> ids[k] in TeamIds(teams)
    requires n == 0 || n < |times|
    requires TimeRows(teams, ids, times, n).Success? && i < n
    ensures |TimeRows(teams, ids, times, n).value| == n
    ensures var row := TimeRows(teams, ids, times, n).value[i];
      && |row| >= 1 && row[0] == times[i] + "-" + times[i + 1]
      && RowCells(teams, ids, times[i]) == Success(row[1..])
    decreases n
  {
    TimeRowsLength(teams, ids, times, n);
    var rows := TimeRows(teams, ids, times, n - 1).value;
    TimeRowsLength(teams, ids, times, n - 1);
    var cells := RowCells(teams, ids, times[n - 1]).value;
    var row := [times[n - 1] + "-" + times[n]] + cells;
    assert TimeRows(teams, ids, times, n).value == rows + [row];
    if i < n - 1 {
      TimeRowAt(teams, ids, times, n - 1, i);
    } else {
      assert row[1..] == cells;
    }
  }

  lemma {:induction false} TimeRowsFails(teams: Teams, ids: seq<string>, times: seq<string>, m: nat, n: nat)
    requires forall k :: 0 <= k < |ids| ==> ids[k] in TeamIds(teams)
    requires m <= n && (n == 0 || n < |times|)
    requires TimeRows(teams, ids, times, m).Failure?
    ensures TimeRows(teams, ids, times, n) == TimeRows(teams, ids, times, m)
    decreases n - m
  {
    if m < n {
      TimeRowsFails(teams, ids, times, m + 1, n);
    }
  }

  // ---- the table ----

  const NoTeamsMessage := "오류: 팀 데이터가 없습니다"

  /** "시간", then one "팀 {id}" per team id. */
  function Header(ids: seq<string>): (r: seq<string>)
    ensures |r| == 1 + |ids| && r[0] == "시간"
    ensures forall k :: 0 <= k < |ids| ==> r[k + 1] == "팀 " + ids[k]
  {
    ["시간"] + seq(|ids|, k requires 0 <= k < |ids| => "팀 " + ids[k])
  }

  /** The seven rows after the timeline. */
  function Summary(scenario: Scenario): seq<seq<string>> {
    [[],
     ["📊 시나리오 정보"],
     ["이름", scenario.name.GetOr("")],
     ["설명", scenario.description.GetOr("")],
     [],
     ["✅ 장점", scenario.pros.GetOr("")],
     ["\U{26A0}\U{FE0F} 단점", scenario.cons.GetOr("")]]
  }

  /** The number of time rows: one per consecutive pair of sorted times. */
  function SlotCount(times: seq<string>): nat {
    if |times| > 0 then |times| - 1 else 0
  }

  /** The time rows of a team map whose times all exist. */
  ghost function TimelineRows(teams: Teams): (r: Result<Table, string>)
    requires CollectTimes(teams).Success?
    ensures r.Failure? ==> r.error == "room_name" || r.error == "theme"
  {
    var ids := SortedOf(TeamIds(teams));
    SortedOfSpec(TeamIds(teams));
    var times := SortedOf(CollectTimes(teams).value);
    TimeRows(teams, ids, times, SlotCount(times))
  }

  /** The table a scenario is written as, or the key whose absence stops it. */
  ghost function Timeline(scenario: Scenario): (r: Result<Table, string>)
    ensures r.Failure? ==> r.error in {"start_time", "end_time", "room_name", "theme"}
    ensures r.Success? ==> |r.value| >= 1
  {
    if scenario.teams.None? || scenario.teams.value == [] then Success([[NoTeamsMessage]])
    else
      var teams := scenario.teams.value;
      match CollectTimes(teams)
      case Failure(e) => Failure(e)
      case Success(_) =>
        match TimelineRows(teams)
        case Failure(e) => Failure(e)
        case Success(rows) => Success([Header(SortedOf(TeamIds(teams)))] + rows + Summary(scenario))
  }

  /** Without teams the table is the single error cell. */
  lemma NoTeamsTable(scenario: Scenario)
    requires scenario.teams.None? || scenario.teams.value == []
    ensures Timeline(scenario) == Success([[NoTeamsMessage]])
  {
  }

  /** The sorted, distinct times of a scenario whose times all exist. */
  ghost function SortedTimes(teams: Teams): seq<string>
    requires CollectTimes(teams).Success?
  {
    SortedOf(CollectTimes(teams).value)
  }

  /** The table's outline: the header over the sorted team ids, one row per
      consecutive pair of the distinct sorted start and end times, then the
      summary. */
  lemma TimelineShape(scenario: Scenario)
    requires scenario.teams.Some? && scenario.teams.value != []
    requires Timeline(scenario).Success?
    ensures CollectTimes(scenario.teams.value).Success?
    ensures var teams := scenario.teams.value;
      var table := Timeline(scenario).value;
      var ids := SortedOf(TeamIds(teams));
      var times := SortedTimes(teams);
      && StrictlySorted(ids) && |ids| == |teams| && (forall id :: id in ids <==> id in TeamIds(teams))
      && StrictlySorted(times) && (forall s :: s in times <==> IsTimeOf(teams, |teams|, s))
      && |table| == 1 + SlotCount(times) + 7
      && table[0] == Header(ids)
      && table[1 + SlotCount(times)..] == Summary(scenario)
  {
    var teams := scenario.teams.value;
    var ids := SortedOf(TeamIds(teams));
    SortedOfSpec(TeamIds(teams));
    TeamIdsCount(teams);
    CollectTimesValue(teams);
    var times := SortedTimes(teams);
    SortedOfSpec(CollectTimes(teams).value);
    TimeRowsLength(teams, ids, times, SlotCount(times));
  }

  /** The cell of the `k`-th id in time row `i`. */
  lemma TimeRowCell(teams: Teams, ids: seq<string>, times: seq<string>, n: nat, i: nat, k: nat)
    requires forall k :: 0 <= k < |ids| ==> ids[k] in TeamIds(teams)
    requires n == 0 || n < |times|
    requires TimeRows(teams, ids, times, n).Success? && i < n && k < |ids|
    ensures |TimeRows(teams, ids, times, n).value| == n
    ensures var row := TimeRows(teams, ids, times, n).value[i];
      && |row| == 1 + |ids| && row[0] == times[i] + "-" + times[i + 1]
      && Cell(AssignmentsOf(teams, ids[k]), times[i]) == Success(row[k + 1])
  {
    TimeRowAt(teams, ids, times, n, i);
    RowCellsShape(teams, ids, times[i]);
  }

  /** A table that can be written is the header, the time rows and the
      summary. */
  lemma TimelineParts(scenario: Scenario)
    requires scenario.teams.Some? && scenario.teams.value != []
    requires Timeline(scenario).Success?
    ensures CollectTimes(scenario.teams.value).Success?
    ensures TimelineRows(scenario.teams.value).Success?
    ensures Timeline(scenario).value ==
      [Header(SortedOf(TeamIds(scenario.teams.value)))] + TimelineRows(scenario.teams.value).value + Summary(scenario)
  {
  }

  /** Row `i` of the timeline covers the slot from `times[i - 1]` to
      `times[i]`, and its cell for the `k`-th team id is that team's cell at
      `times[i - 1]`. */
  lemma TimelineRow(scenario: Scenario, i: nat, k: nat)
    requires scenario.teams.Some? && scenario.teams.value != []
    requires Timeline(scenario).Success?
    requires CollectTimes(scenario.teams.value).Success?
    requires 1 <= i <= SlotCount(SortedTimes(scenario.teams.value)) && k < |scenario.teams.value|
    ensures var teams := scenario.teams.value;
      var table := Timeline(scenario).value;
      var ids := SortedOf(TeamIds(teams));
      var times := SortedTimes(teams);
      && i < |table| && |ids| == |teams| && ids[k] in TeamIds(teams)
      && |table[i]| == 1 + |teams|
      && table[i][0] == times[i - 1] + "-" + times[i]
      && Cell(AssignmentsOf(teams, ids[k]), times[i - 1]) == Success(table[i][k + 1])
  {
    var teams := scenario.teams.value;
    var ids := SortedOf(TeamIds(teams));
    SortedOfSpec(TeamIds(teams));
    TeamIdsCount(teams);
    var times := SortedTimes(teams);
    var n := SlotCount(times);
    TimelineParts(scenario);
    var rows := TimeRows(teams, ids, times, n).value;
    TimeRowCell(teams, ids, times, n, i - 1, k);
    assert Timeline(scenario).value[i] == rows[i - 1];
  }

  // ---- building the table ----

  /** Collects the set of start and end times, as the first pass does. */
  method CollectAllTimes(teams: seq<(string, seq<Assignment>)>) returns (r: Result<set<string>, string>)
    ensures r == CollectTimes(teams)
  {
    var allTimes: set<string> := {};
    for t := 0 to |teams|
      invariant CollectTimes(teams[..t]) == Success(allTimes)
    {
      ghost var outer := allTimes;
      var assignments := teams[t].1;
      assert teams[..t + 1][..t] == teams[..t];
      for k := 0 to |assignments|
        invariant AddTimes(outer, assignments[..k]) == Success(allTimes)
      {
        assert assignments[..k + 1][..k] == assignments[..k];
        assert assignments[..k + 1][k] == assignments[k];
        ghost var before := allTimes;
        if assignments[k].startTime.None? {
          AddTimesFails(outer, assignments, k + 1);
          CollectTimesFails(teams, t + 1);
          return Failure("start_time");
        }
        allTimes := allTimes + {assignments[k].startTime.value};
        if assignments[k].endTime.None? {
          AddTimesFails(outer, assignments, k + 1);
          CollectTimesFails(teams, t + 1);
          return Failure("end_time");
        }
        allTimes := allTimes + {assignments[k].endTime.value};
        assert allTimes == before + {assignments[k].startTime.value, assignments[k].endTime.value};
      }
      assert assignments[..|assignments|] == assignments;
    }
    assert teams[..|teams|] == teams;
    r := Success(allTimes);
  }

  /** Writes the content of one assignment's cell, step by step. */
  method AssignmentCell(assignment: Assignment) returns (cellContent: string)
    requires assignment.roomName.Some? && assignment.theme.Some?
    ensures CellText(assignment) == Success(cellContent)
  {
    var room, theme := assignment.roomName.value, assignment.theme.value;
    cellContent := room + "\n(" + theme + ")\n";
    var memberNames := assignment.members.GetOr([]);
    if |memberNames| <= 3 {
      cellContent := cellContent + Join(", ", memberNames);
    } else {
      cellContent := cellContent + Join(", ", memberNames[..3]) + " 외 " + NatToString(|memberNames| - 3) + "명";
    }
    assert cellContent == room + "\n(" + theme + ")\n" + MemberText(memberNames);
    var travel := assignment.travelTimeFromPrevious.GetOr(0);
    if travel > 0 {
      cellContent := "[이동 " + IntToString(travel) + "분]\n" + cellContent;
    }
    assert cellContent == TravelPrefix(travel) + room + "\n(" + theme + ")\n" + MemberText(memberNames);
    var notes := assignment.notes.GetOr("");
    if MentionsMeal(notes) {
      cellContent := cellContent + "\n📍 " + notes;
    }
    assert cellContent == TravelPrefix(travel) + room + "\n(" + theme + ")\n" + MemberText(memberNames) + NotesSuffix(notes);
  }

  /** Fills one team's cell for the row starting at `start`. */
  method TeamCell(assignments: seq<Assignment>, start: string) returns (r: Result<string, string>)
    ensures r == Cell(assignments, start)
  {
    var cellContent := "";
    for m := 0 to |assignments|
      invariant Cell(assignments[..m], start) == Success(cellContent)
    {
      assert assignments[..m + 1][..m] == assignments[..m];
      assert assignments[..m + 1][m] == assignments[m];
      var assignment := assignments[m];
      if assignment.startTime == Some(start) {
        if assignment.roomName.None? || assignment.theme.None? {
          CellFails(assignments, start, m + 1);
          return CellText(assignment);
        }
        cellContent := AssignmentCell(assignment);
      }
    }
    assert assignments[..|assignments|] == assignments;
    r := Success(cellContent);
  }

  /** Builds one time row: the slot label, then each team's cell. */
  method BuildRow(teams: Teams, ids: seq<string>, start: string, end: string) returns (r: Result<seq<string>, string>)
    requires forall k :: 0 <= k < |ids| ==> ids[k] in TeamIds(teams)
    ensures RowCells(teams, ids, start).Failure? ==> r == Failure(RowCells(teams, ids, start).error)
    ensures RowCells(teams, ids, start).Success? ==> r == Success([start + "-" + end] + RowCells(teams, ids, start).value)
  {
    var row := [start + "-" + end];
    assert ids[..0] == [] && row[1..] == [];
    assert RowCells(teams, ids[..0], start) == Success([]);
    for k := 0 to |ids|
      invariant |row| >= 1 && row[0] == start + "-" + end
      invariant RowCells(teams, ids[..k], start) == Success(row[1..])
    {
      assert ids[..k + 1][..k] == ids[..k];
      assert ids[..k + 1][k] == ids[k];
      var cellContent := TeamCell(AssignmentsOf(teams, ids[k]), start);
      if cellContent.Failure? {
        RowCellsFails(teams, ids, start, k + 1);
        return Failure(cellContent.error);
      }
      ghost var cells := row[1..];
      row := row + [cellContent.value];
      assert row[1..] == cells + [cellContent.value];
    }
    assert ids[..|ids|] == ids;
    assert row == [start + "-" + end] + row[1..];
    r := Success(row);
  }

  /** `_format_timeline(scenario)`. */
  method FormatTimeline(scenario: Scenario) returns (r: Result<Table, string>)
    ensures r == Timeline(scenario)
  {
    if scenario.teams.None? || scenario.teams.value == [] {
      return Success([[NoTeamsMessage]]);
    }
    var teams := scenario.teams.value;
    var ids := SortedList(TeamIds(teams));
    var collected := CollectAllTimes(teams);
    if collected.Failure? {
      return Failure(collected.error);
    }
    var sortedTimes := SortedList(collected.value);
    var rows := TimelineBody(teams, ids, sortedTimes);
    if rows.Failure? {
      return Failure(rows.error);
    }
    r := Success([Header(ids)] + rows.value + Summary(scenario));
  }

  /** The time rows, slot by slot. */
  method TimelineBody(teams: Teams, ids: seq<string>, sortedTimes: seq<string>) returns (r: Result<Table, string>)
    requires CollectTimes(teams).Success?
    requires ids == SortedOf(TeamIds(teams)) && sortedTimes == SortedOf(CollectTimes(teams).value)
    ensures r == TimelineRows(teams)
  {
    assert forall k :: 0 <= k < |ids| ==> ids[k] in TeamIds(teams) by {
      SortedOfSpec(TeamIds(teams));
    }
    var slots := SlotCount(sortedTimes);
    var data: Table := [];
    for i := 0 to slots
      invariant TimeRows(teams, ids, sortedTimes, i) == Success(data)
    {
      var row := BuildRow(teams, ids, sortedTimes[i], sortedTimes[i + 1]);
      if row.Failure? {
        TimeRowsFails(teams, ids, sortedTimes, i + 1, slots);
        return Failure(row.error);
      }
      data := data + [row.value];
    }
    r := Success(data);
  }
}
