# Escape-room schedule maker: a verified model of its core

The application plans a day of escape-room sessions for a group. It reads two
uploaded tables, reservations (room, time, address, theme, capacities) and
participants (availability window, horror position). It builds a driving-time
matrix between the room addresses from the Naver Maps geocoding and directions
services. It then asks a language model for scenarios that split the group into
teams. Finally it shows each scenario as a text summary and can export it as a
timeline sheet.

This project models that core in Dafny and proves properties of the model. The
modules are:

- `Models` (`models.dfy`): the records and their field validation.
  - The record is `Reservation` or `User`; a row of named cells becomes a record or an error list.
  - Capacities must be positive.
  - A horror position comes from a closed set of three.
  - Datetime text is parsed with one fixed format.
- `Scheduler` (`scheduler.dfy`): the schedule checks, the balance score and the two prompt listings.
  - The checks are availability, capacity band, travel gap and horror theme.
  - The prompt listings are participants grouped by position and travel times shown in one direction.
- `Travel` (`travel.dfy`): the Naver Maps client as a class.
  - It has memo tables for addresses and routes, and ghost logs of the requests it sends.
  - The two web services are function-valued fields.
  - `GetTravelTimeMatrix` is imperative with nested loops and invariants.
- `Scenarios` (`scenarios.dfy`): the shape of a decoded scenario.
  - Every key may be missing.
  - The team map is an association list with distinct ids, in key order.
- `Sheets` (`sheets.dfy`): three parts of the export.
  - The spreadsheet id found in a sheet URL (`re.search` semantics).
  - The message an export failure is reported with.
  - The timeline table: a specification function `Timeline` and an imperative builder `FormatTimeline` proved equal to it.
- `ClaudeAgent` (`claude_agent.dfy`): the model's reply and the summary.
  - The code-fence stripping of the reply.
  - The decoding of the scenario list, with the decoder as a parameter.
  - The scenario summary: a specification `Summary` and an imperative `FormatScenarioSummary`.
- `CsvParser` (`csv_parser.dfy`): the all-or-nothing table readers, as one parameterised loop `ParseRows` against the specification `ParseTable`.
- `Text` and `Wrappers`: the Python string operations used, and `Option`/`Result`.
  - The string operations are `in`, `split`, `join`, `strip`, `lower`, `str(int)` and `sorted` on strings.

Modelling conventions:

- A Python exception becomes a `Failure` of a `Result`.
- A `KeyError` is reported by the missing key's name.
- Datetimes are integer seconds (`Instant`).
- A dictionary whose key order matters is a sequence of pairs with distinct keys.

## Model

| member | source | states |
|---|---|---|
| Models.StrField | src/models.py:12-16 | a text field is accepted exactly when the cell is text |
| Models.CapacityField | src/models.py:29-35 | a capacity is accepted exactly when it reads as an integer greater than 0, and a value ≤ 0 is rejected as non-positive |
| Models.ParseDatetime | src/models.py:21-27 | text is parsed with "%Y-%m-%d %H:%M" and accepted exactly when that parse succeeds; any other value passes through unchanged |
| Models.DatetimeField | src/models.py:13-14 | a datetime field is the parsed text or the datetime value itself |
| Models.PositionField | src/models.py:47 | a position is accepted exactly when it is one of 탱커, 평민, 쫄, and keeps its label |
| Models.MakeReservation | src/models.py:9-35 | a reservation is built exactly when all eight fields validate; it then holds each validated cell value in its own field and has positive capacities; otherwise there is at least one field error |
| Models.MakeUser | src/models.py:41-64 | a participant is built exactly when all four fields validate; it then holds the validated name, both times and the position whose label is the cell; otherwise there is at least one field error |
| Models.IntField | src/models.py:17-19 | an integer field is accepted exactly when the cell is an integer or text that reads as one; an integer cell keeps its value; a missing cell is a missing-field error |
| Models.NonPositiveCapacityRejected | src/models.py:29-35 | a capacity ≤ 0 in any of the three columns rejects the row, with an error against that column |
| Models.UnknownPositionRejected | src/models.py:57-64 | a position outside the three labels rejects the row, with an error against that column |
| Models.NewTeamAssignment | src/models.py:70-76 | travel time from the previous room defaults to 0 |
| Models.NewSchedule | src/models.py:79-85 | notes default to the empty string |
| Scheduler.IsUserAvailable | src/scheduler.py:30-32 | an available participant's window holds every instant of the period |
| Scheduler.AvailableIffContained | src/scheduler.py:30-32 | available exactly when every instant of the period, both ends included, lies in the participant's window |
| Scheduler.IsCapacityValid | src/scheduler.py:35-56 | in either mode every size from min to max is accepted, and no accepted size lies outside min−1 to max+1 |
| Scheduler.StrictCapacityImpliesFlexible | src/scheduler.py:46-56 | strict capacity validity implies flexible validity |
| Scheduler.FlexibleIsStrictWidenedByOne | src/scheduler.py:46-56 | for a room whose bounds are in order (min ≤ max, which the records do not guarantee), a team size is flexibly valid exactly when some size within one of it is strictly valid |
| Scheduler.CapacityBandEdges | src/scheduler.py:46-52 | min−1 and max+1 are accepted and min−2 and max+2 are rejected |
| Scheduler.IsTravelTimeFeasible | src/scheduler.py:59-80 | feasible exactly when the gap in seconds is at least 60 × the travel minutes |
| Scheduler.TravelGapEdges | src/scheduler.py:75-80 | an equal gap is feasible; a negative gap is not, for non-negative travel |
| Scheduler.NeedsHorrorTank | src/scheduler.py:83-85 | a horror theme is one whose text contains 공포; lower-casing does not change that |
| Scheduler.HorrorThemeExamples | src/scheduler.py:85 | "공포의 지하실" needs a tank and "추리" does not |
| Scheduler.ScaledDeviationZero | src/scheduler.py:193-196 | the integer deviation is zero exactly when every count equals the mean |
| Scheduler.ScaledDeviationReal | src/scheduler.py:192-196 | the integer sum of squared n-scaled deviations is n² times the sum of squared deviations from the real mean T / n |
| Scheduler.Normalize | src/scheduler.py:196-206 | dividing n² times a sum by n·T² gives that sum over n, divided by the squared mean |
| Scheduler.NormalizedVariance | src/scheduler.py:192-206 | the integer quotient the score is built from equals variance / mean², with variance and mean computed on exact reals as the source writes them |
| Scheduler.ScoreOfCounts | src/scheduler.py:183-206 | the score lies in [0, 1]; no teams gives 0.0; all-zero counts give 1.0 |
| Scheduler.BalanceScore | src/scheduler.py:176-206 | the same bounds and edge values for a schedule |
| Scheduler.ScoreOneIffEven | src/scheduler.py:193-206 | with at least one team, the score is 1.0 exactly when all counts are equal |
| Scheduler.BalanceExamples | src/scheduler.py:203-204 | counts [2, 2, 2] score 1.0; counts [4, 0] score 0.0 |
| Scheduler.GroupsPartitionUsers | src/scheduler.py:106-123 | the three position groups hold every participant exactly once (as multisets of names) |
| Scheduler.FormatUsersForClaude | src/scheduler.py:105-122 | the listing begins with the title 참여자 정보: and contains, for each position, its line naming exactly the participants of that position |
| Scheduler.ListOfSet | src/scheduler.py:133 | `list(set(...))` holds each element of the set exactly once |
| Scheduler.TravelListing | src/scheduler.py:133-139 | each shown pair has two different addresses and a positive time; no unordered pair is shown twice; a pair positive in both directions is shown |
| Scheduler.ListedAllShows | src/scheduler.py:135-139 | the nested upper-triangle loop's invariant yields that promise at the end |
| Scheduler.ListedNoRepeat | src/scheduler.py:135-139 | with distinct addresses, the upper-triangle loop never shows the same unordered pair twice |
| Scheduler.ListedComplete | src/scheduler.py:135-139 | once the loops finish, every pair of different addresses with a positive time both ways is shown |
| Scheduler.FormatTravelTimesForClaude | src/scheduler.py:126-141 | the text is the title line and one line per pair of such a listing |
| Travel.GeocodeResult | src/travel.py:53-63 | a coordinate exactly when status is "OK", the address list is non-empty and the first entry has a point; that point is the result; a failed request gives none |
| Travel.RouteMinutes | src/travel.py:106-118 | minutes exactly when code is 0, a route is present, trafast is non-empty and the first leg has a duration; the result is the floor of ms / 60000 |
| Travel.RouteMinutesExamples | src/travel.py:110-112 | 59999 ms gives 0 minutes and 1800000 ms gives 30; code 1 gives none |
| Travel.NaverMapsClient.TravelTime | src/travel.py:79-118 | none when either address fails to geocode; otherwise the route minutes between the two points |
| Travel.NaverMapsClient.constructor | src/travel.py:21-22 | with both credentials given: empty memo tables and request logs |
| Travel.NewClient | src/travel.py:21-22 | fails with "Naver Maps API credentials are not set" exactly when a credential is empty |
| Travel.NaverMapsClient.Geocode | src/travel.py:31-63 | returns the geocode of the address; memoises it; a request is sent only on a miss |
| Travel.NaverMapsClient.GetTravelTime | src/travel.py:65-118 | returns the travel time; a memo hit sends nothing; a miss geocodes both ends, and requests directions exactly when both have points |
| Travel.NaverMapsClient.GetTravelTimeMatrix | src/travel.py:120-147 | keys are exactly the ordered pairs of input addresses; the diagonal is 0 even with duplicates; an off-diagonal entry is the travel time, or 30 when absent; every off-diagonal pair is memoised and no memo entry is lost; every directions request sent is for an off-diagonal pair that was not memoised before; every geocode request sent is for a listed address |
| Travel.NaverMapsClient.FillRow | src/travel.py:134-145 | one pass of the outer loop leaves the map of the rows written so far plus row i, memoises every off-diagonal pair of the row, and requests only off-diagonal pairs not memoised before and listed addresses |
| Travel.NaverMapsClient.FillCell | src/travel.py:136-145 | one pass of the inner loop writes cell (i, j): 0 on the diagonal, else the looked-up time or 30; the memo then holds that pair |
| Travel.NaverMapsClient.WrittenMatrix | src/travel.py:120-147 | the map the nested loops leave has exactly the ordered pairs of listed addresses as keys, 0 for an address to itself and the travel time or 30 elsewhere |
| Travel.NaverMapsClient.WrittenDiagonal | src/travel.py:134-137 | an address whose last diagonal cell has been written maps to 0, even when it is listed twice and an off-diagonal cell for it was written earlier |
| Travel.NaverMapsClient.CachedAll | src/travel.py:134-139 | after all rows, every ordered pair of different listed addresses has been looked up |
| Scenarios.TeamIdsCount | src/sheets.py:151 | distinct keys: as many ids as teams |
| Scenarios.AssignmentsOfFinds | src/sheets.py:173 | `teams[id]` finds that team's assignments |
| Text.SortedOfSpec | src/sheets.py:151 | `sorted` of a set is strictly increasing, holds exactly its elements and has its size |
| Text.SortedList | src/sheets.py:161 | computes that sorted list |
| Sheets.SearchFrom | src/sheets.py:54 | the leftmost position at or after p where the marker is followed by an id character, or none |
| Sheets.ExtractSpreadsheetId | src/sheets.py:53-58 | succeeds exactly when a match exists; the id is the maximal non-empty run of [a-zA-Z0-9-_] after the leftmost match; otherwise the invalid-URL message |
| Sheets.ExtractSpreadsheetIdStopsAtSlash | src/sheets.py:54 | the id ends at the first character outside the class |
| Sheets.ExtractSpreadsheetIdNeedsId | src/sheets.py:55-56 | a marker with nothing after it is not a sheet URL |
| Sheets.ExportErrorMessage | src/sheets.py:115-134 | every message starts with ❌; a storage-quota failure gets the quota explanation; any other failure ends with the original message word for word, after the permission prefix exactly when the message contains "403" |
| Sheets.MemberText | src/sheets.py:176-180 | with at most three names every name occurs in the text; with more, the text is that of the first three followed by " 외 {n−3}명", so the first three names occur in it |
| Sheets.MentionsMealIffMarker | src/sheets.py:188-189 | the precedence-mixed notes test holds exactly when the notes contain 점심, 저녁 or 식사 |
| Sheets.TravelPrefix | src/sheets.py:183-185 | the travel prefix is present exactly when travel > 0 |
| Sheets.NotesSuffix | src/sheets.py:188-190 | the notes line is present exactly when the notes mention a meal |
| Sheets.CellText | src/sheets.py:175-190 | room_name then theme are required; the cell text is then non-empty |
| Sheets.Cell | src/sheets.py:171-190 | a team's cell fails only for a missing room_name or theme |
| Sheets.CellEmptyWithoutMatch | src/sheets.py:171-175 | a cell is empty when no assignment of the team starts at the slot |
| Sheets.CellLastMatchWins | src/sheets.py:171-175 | a cell that can be written is the text of the last assignment starting at the slot |
| Sheets.AddTimesSpec | src/sheets.py:155-158 | collecting fails exactly when an assignment lacks a time, and otherwise gathers exactly the start and end times |
| Sheets.CollectTimesFailure | src/sheets.py:154-158 | collecting all times fails exactly when some assignment lacks start_time or end_time |
| Sheets.CollectTimesValue | src/sheets.py:154-158 | the collected set is exactly the start and end strings of all assignments |
| Sheets.RowCellsShape | src/sheets.py:171-192 | a row has one cell per team, in sorted id order, each that team's cell for the slot |
| Sheets.TimeRowsLength | src/sheets.py:164 | there is one row per consecutive pair of times |
| Sheets.TimeRowAt | src/sheets.py:164-194 | row i is labelled "start-end" with the i-th and next time and holds the team cells |
| Sheets.Header | src/sheets.py:151 | "시간" and then "팀 {id}" per id |
| Sheets.NoTeamsTable | src/sheets.py:143-145 | missing or empty teams give exactly the one-cell error table |
| Sheets.Timeline | src/sheets.py:136-205 | a failure names one of start_time, end_time, room_name, theme; a table has at least one row |
| Sheets.TimelineShape | src/sheets.py:136-205 | header in sorted id order, (distinct times − 1) slot rows, the 7-row summary; the times are sorted and exactly the assignments' times |
| Sheets.TimelineRow | src/sheets.py:164-194 | each slot row has 1 + teams cells; cell k is team k's cell for the slot start |
| Sheets.CollectAllTimes | src/sheets.py:154-158 | the nested loop computes the collected times |
| Sheets.AssignmentCell | src/sheets.py:175-190 | the step-by-step cell string equals the cell text |
| Sheets.TeamCell | src/sheets.py:172-175 | the loop over a team's assignments computes its cell |
| Sheets.BuildRow | src/sheets.py:168-192 | a row is the slot label followed by the team cells |
| Sheets.TimelineBody | src/sheets.py:164-194 | the slot loop computes the slot rows |
| Sheets.FormatTimeline | src/sheets.py:136-205 | `_format_timeline` computes `Timeline` |
| ClaudeAgent.Payload | src/claude_agent.py:155-163 | the payload passed to the decoder neither begins nor ends with white space |
| ClaudeAgent.PayloadWithoutFence | src/claude_agent.py:157 | a reply without a fence is decoded whole, stripped |
| ClaudeAgent.PayloadBareFence | src/claude_agent.py:162-163 | with only bare fences, the payload is the stripped text between the first fence and the next, or the end |
| ClaudeAgent.PayloadJsonFence | src/claude_agent.py:160-161 | with a "```json" fence, the payload is the stripped text between it and the next fence, or the end, whatever bare fences come earlier |
| ClaudeAgent.ParseScenarios | src/claude_agent.py:165-171 | a decode error is a ValueError with the fixed message; an object without "scenarios" gives []; an object with it gives its list; a non-object fails |
| ClaudeAgent.AssignmentLines | src/claude_agent.py:196-210 | fails with the first missing key in reading order; otherwise 2 lines, plus a travel line exactly when travel > 0 and a memo line exactly when notes are non-empty |
| ClaudeAgent.AssignmentLinesTravel | src/claude_agent.py:204-208 | the travel line is among an assignment's lines exactly when the travel time is positive |
| ClaudeAgent.AssignmentLinesMemo | src/claude_agent.py:204-210 | a memo line is among an assignment's lines exactly when it has non-empty notes |
| ClaudeAgent.TeamLines | src/claude_agent.py:196-210 | a team's lines, when they can be written, number at least two per assignment |
| ClaudeAgent.TeamLinesErrorKey | src/claude_agent.py:196-210 | a team's lines that cannot be written fail with the missing key of one of its assignments |
| ClaudeAgent.TeamLinesFailIff | src/claude_agent.py:196-202 | a team's lines fail exactly when one of its assignments lacks a key |
| ClaudeAgent.TeamsLinesFailIff | src/claude_agent.py:193-212 | all blocks succeed exactly when every assignment has its keys |
| ClaudeAgent.TeamsLines | src/claude_agent.py:193-212 | the team blocks, when they can be written, number at least two lines per team |
| ClaudeAgent.TeamsLinesBlocks | src/claude_agent.py:193-212 | the team blocks are, team by team in key order, a "### 팀 {id}" heading, that team's lines and a blank line |
| ClaudeAgent.TeamsLinesErrorKey | src/claude_agent.py:193-212 | team blocks that cannot be written fail with the missing key of one assignment of one team |
| ClaudeAgent.TeamsLinesPrefix | src/claude_agent.py:193-212 | the blocks of the first m teams of a summary that can be written begin its blocks |
| ClaudeAgent.SummaryLines | src/claude_agent.py:188-220 | name then description are required; the lines are the title, the description, the team blocks, then 장점/pros and 단점/cons, pros and cons defaulting to "" |
| ClaudeAgent.SummaryBlocks | src/claude_agent.py:188-220 | a summary's lines are title and description, the per-team blocks first team first, then pros and cons |
| ClaudeAgent.Summary | src/claude_agent.py:178-220 | the text fails exactly when its lines do; a written summary starts with "## {name}" and a newline |
| ClaudeAgent.SummaryIffComplete | src/claude_agent.py:188-220 | a summary exists exactly when name and description are present and every assignment is complete |
| ClaudeAgent.TeamBlock | src/claude_agent.py:196-210 | the assignment loop computes a team's lines |
| ClaudeAgent.TeamBlocks | src/claude_agent.py:193-212 | the team loop computes all blocks |
| ClaudeAgent.FormatScenarioSummary | src/claude_agent.py:178-220 | `format_scenario_summary` computes `Summary` |
| CsvParser.MissingColumns | src/parser.py:26-27 | exactly the required columns absent from the frame |
| CsvParser.ParseTable | src/parser.py:22-51 | no data gives "CSV 파일이 비어있습니다"; every other failure carries the "CSV 파일을 읽을 수 없습니다: " prefix; missing columns are listed |
| CsvParser.RowErrors | src/parser.py:36-41 | every row yields either a report line or a record: together they number the rows |
| CsvParser.Built | src/parser.py:36-39 | no more records than rows |
| CsvParser.RowErrorsEmptyIff | src/parser.py:36-44 | no report lines exactly when every row validates |
| CsvParser.BuiltAll | src/parser.py:33-46 | with every row valid, one record per row in row order |
| CsvParser.RowErrorsPrefix | src/parser.py:36-41 | errors are collected in row order |
| CsvParser.RowErrorAt | src/parser.py:36-41 | row i adds exactly one line tagged "행 {i+2}" when rejected, and none otherwise |
| CsvParser.AllOrNothing | src/parser.py:29-46 | a table is accepted exactly when all required columns are present and every row validates; then it has one record per row |
| CsvParser.RejectedRowFails | src/parser.py:43-44 | one rejected row fails the whole table with one report listing every rejected row |
| CsvParser.ReservationsValid | src/parser.py:36-46 | every accepted reservation has positive capacities |
| CsvParser.ParseRows | src/parser.py:22-51 | the row loop computes `ParseTable` |
| CsvParser.ParseReservations | src/parser.py:9-51 | `parse_reservations` with the eight reservation columns |
| CsvParser.ParseUsers | src/parser.py:54-96 | `parse_users` with the four participant columns |

Notes on the code as modelled:

- The comment at src/travel.py:143 speaks of a straight-line estimate; the code writes the literal 30, and that is what is modelled.
- The records check neither min ≤ optimal ≤ max nor end > start, so the model assumes neither.
- `re.search(r'/spreadsheets/d/([a-zA-Z0-9-_]+)')` finds the leftmost marker that has at least one id character after it, not simply the first marker. The character class `0-9-_` is digits, `-` and `_`.
- The invalid-URL error is raised inside the export's outer `try`. The caller therefore receives it through `ExportErrorMessage`, as a generic creation failure.
- The CSV readers' own `ValueError`s are raised inside the `try` whose `except Exception` rewraps them. That covers the missing-column error and the row report. So every failure except empty data carries the "CSV 파일을 읽을 수 없습니다: " prefix, and the model says so.
- The balance score divides variance by mean². With n counts summing to T, variance/mean² equals Σ(n·cᵢ − T)² / (n·T²). The model computes that exact rational through an integer numerator and denominator. `Scheduler.NormalizedVariance` proves the identity against variance and mean computed on reals.
- The notes test `notes and "점심" in notes or "저녁" in notes or "식사" in notes` reads as "any of the three words occurs" (`Sheets.MentionsMealIffMarker`).

## Left out

- The Anthropic call is not modelled: `generate_scenarios`, `_build_prompt`, the model name and token limit, and the prompt listings `format_reservations_for_claude` and `format_constraints_for_claude`. They are remote calls and fixed prompt text.
- `json.loads` is a parameter (`decode`). JSON values of the wrong type are not modelled, for example a `teams` that is a list, or a `null` where a string is expected. A missing key is `None`.
- Text.Lower: folds ASCII letters only, where Python's `str.lower()` is Unicode-aware. No outcome changes: no non-ASCII character lower-cases to a letter of "storage quota" or to 공포, and Hangul has no case.
- Scheduler.NormalizedVariance: stated for any team count n > 0 and total T > 0. `ScoreOfCounts` applies it with n the number of teams and T the sum of the counts by its own definition; no separate lemma restates that instance.
- ClaudeAgent.PayloadJsonFence: it assumes the first fence after "```json" does not begin a run of four or more backticks that also opens a later "```json" (`CloserClear`). In that one case the code's two splits keep a stray backtick, and the lemma does not describe it.
- `calculate_efficiency_score` is a constant placeholder in the source.
- The Google Sheets client is not modelled. This covers credentials, opening the spreadsheet and its permission messages, adding a worksheet with a timestamp title and random suffix, writing cells, formatting, `SheetsHelper` and `_apply_formatting`. `Sheets.ExportErrorMessage` models only the outer handler's message choice.
- HTTP details are not modelled: headers, timeouts and `raise_for_status`. A failed request or a malformed body is a `GeocodeFault` or `DirectionsFault` reply. A non-numeric `x`/`y` is a candidate without a point.
- Travel.NaverMapsClient.Geocode: `lru_cache` has bounded sizes (128 and 256) and evicts old entries; the memo table here never evicts. Eviction changes only how many requests are sent, not the results, because the services are deterministic functions in this model.
- Scheduler.BalanceScore: floating point is not modelled. The score is the exact rational, so rounding in the last digits of `1.0 - variance / mean**2` is not captured.
- Coordinates are reals, passed through unchanged.
- pandas is abstracted to `ReadOutcome`. The model does not cover how `read_csv` turns bytes into cells or how it treats empty cells and NaN.
- The validation library's wording of a field error list is a parameter, `describe`.
- CsvParser.MissingColumns: Python lists the missing columns in `set` iteration order, which is unspecified. The model lists them in the order they are required.
- `datetime.strptime` is a parameter of `Coercions`. Datetimes are integer seconds, and `strftime` rendering is not modelled.
- Console output (`print`) is not modelled, and neither is the traceback.
- `main.py` (the Streamlit interface), `config.py` (environment lookups), `cleanup_service_account_files.py` and the two live-service test scripts are not part of this model.
