/** Reading the two uploaded tables (reservations and participants).  The
    CSV reader is abstracted to its outcome: no data, a read failure with
    its message, or a frame of column names and rows.  A table is accepted
    whole or not at all, and every failure is a `ValueError` with a message. */
module CsvParser {
  import opened Wrappers
  import opened Text
  import opened Models

  /** What the CSV reader produced: the column names and the rows in order. */
  datatype Frame = Frame(columns: set<string>, rows: seq<Row>)

  datatype ReadOutcome = EmptyData | ReadFailed(message: string) | Read(frame: Frame)

  const EmptyMessage := "CSV 파일이 비어있습니다"
  /** The outer handler puts this in front of every other failure. */
  const UnreadablePrefix := "CSV 파일을 읽을 수 없습니다: "
  const MissingColumnsPrefix := "필수 컬럼이 누락되었습니다: "
  const ReservationHeader := "예약 데이터 파싱 오류:"
  const UserHeader := "유저 데이터 파싱 오류:"

  /** The required columns the frame lacks, in the order they are required. */
  function MissingColumns(required: seq<string>, present: set<string>): (r: seq<string>)
    ensures forall c :: c in r <==> c in required && c !in present
    ensures r == [] <==> forall i :: 0 <= i < |required| ==> required[i] in present
    decreases |required|
  {
    if required == [] then []
    else
      var rest := MissingColumns(required[1..], present);
      assert forall i :: 1 <= i < |required| ==> required[i] == required[1..][i - 1];
      if required[0] in present then rest else [required[0]] + rest
  }

  /** The report line of a rejected row; the first data row is line 2, the
      header being line 1.  How the validation library words a list of
      field errors is a parameter. */
  function RowError(lineNum: int, errors: seq<FieldError>, describe: seq<FieldError> -> string): string {
    "행 " + IntToString(lineNum) + ": " + describe(errors)
  }

  /** The report lines of the rejected rows, in row order. */
  function RowErrors<T>(rows: seq<Row>, build: Row -> Result<T, seq<FieldError>>,
                        describe: seq<FieldError> -> string): (r: seq<string>)
    ensures |r| + |Built(rows, build)| == |rows|
    decreases |rows|
  {
    if rows == [] then []
    else
      var n := |rows|;
      var built := build(rows[n - 1]);
      RowErrors(rows[..n - 1], build, describe)
        + (if built.Failure? then [RowError(n + 1, built.error, describe)] else [])
  }

  /** The records built from the accepted rows, in row order. */
  function Built<T>(rows: seq<Row>, build: Row -> Result<T, seq<FieldError>>): (r: seq<T>)
    ensures |r| <= |rows|
    decreases |rows|
  {
    if rows == [] then []
    else
      var n := |rows|;
      var built := build(rows[n - 1]);
      Built(rows[..n - 1], build) + (if built.Success? then [built.value] else [])
  }

  /** One table: the reader's outcome, then the required columns, then
      every row, each rejected row adding a line to one report. */
  function ParseTable<T>(input: ReadOutcome, required: seq<string>, header: string,
                         build: Row -> Result<T, seq<FieldError>>, describe: seq<FieldError> -> string): (r: Result<seq<T>, string>)
    ensures input.EmptyData? ==> r == Failure(EmptyMessage)
    ensures input.ReadFailed? ==> r == Failure(UnreadablePrefix + input.message)
    ensures r.Failure? ==> r.error == EmptyMessage || (|r.error| >= |UnreadablePrefix| && r.error[..|UnreadablePrefix|] == UnreadablePrefix)
    ensures input.Read? && MissingColumns(required, input.frame.columns) != [] ==>
      r == Failure(UnreadablePrefix + MissingColumnsPrefix + Join(", ", MissingColumns(required, input.frame.columns)))
  {
    match input
    case EmptyData => Failure(EmptyMessage)
    case ReadFailed(message) => Failure(UnreadablePrefix + message)
    case Read(frame) =>
      var missing := MissingColumns(required, frame.columns);
      if missing != [] then
        Failure(UnreadablePrefix + MissingColumnsPrefix + Join(", ", missing))
      else
        var errors := RowErrors(frame.rows, build, describe);
        if errors != [] then Failure(UnreadablePrefix + Join("\n", [header] + errors))
        else Success(Built(frame.rows, build))
  }

  function ReservationBuilder(c: Coercions): Row -> Result<Reservation, seq<FieldError>> {
    row => MakeReservation(row, c)
  }

  function UserBuilder(c: Coercions): Row -> Result<User, seq<FieldError>> {
    row => MakeUser(row, c)
  }

  // ---- what a parse is known to satisfy ----

  /** No report lines exactly when every row is accepted. */
  lemma {:induction false} RowErrorsEmptyIff<T>(rows: seq<Row>, build: Row -> Result<T, seq<FieldError>>,
                                                describe: seq<FieldError> -> string)
    ensures RowErrors(rows, build, describe) == [] <==> forall i :: 0 <= i < |rows| ==> build(rows[i]).Success?
    decreases |rows|
  {
    if rows != [] {
      var init := rows[..|rows| - 1];
      RowErrorsEmptyIff(init, build, describe);
      assert forall i :: 0 <= i < |init| ==> init[i] == rows[i];
    }
  }

  /** With every row accepted, there is one record per row, in row order. */
  lemma {:induction false} BuiltAll<T>(rows: seq<Row>, build: Row -> Result<T, seq<FieldError>>)
    requires forall i :: 0 <= i < |rows| ==> build(rows[i]).Success?
    ensures |Built(rows, build)| == |rows|
    ensures forall i :: 0 <= i < |rows| ==> Built(rows, build)[i] == build(rows[i]).value
    decreases |rows|
  {
    if rows != [] {
      var init := rows[..|rows| - 1];
      assert forall i :: 0 <= i < |init| ==> init[i] == rows[i];
      BuiltAll(init, build);
    }
  }

  /** The report for the first `m` rows begins the report for all of them. */
  lemma {:induction false} RowErrorsPrefix<T>(rows: seq<Row>, m: nat, build: Row -> Result<T, seq<FieldError>>,
                                              describe: seq<FieldError> -> string)
    requires m <= |rows|
    ensures RowErrors(rows[..m], build, describe) <= RowErrors(rows, build, describe)
    decreases |rows| - m
  {
    if m < |rows| {
      assert rows[..m + 1][..m] == rows[..m];
      RowErrorsPrefix(rows, m + 1, build, describe);
    } else {
      assert rows[..m] == rows;
    }
  }

  /** Row `i` adds its line, tagged with line number `i + 2`, right after
      the lines of the rows before it, exactly when it is rejected. */
  lemma RowErrorAt<T>(rows: seq<Row>, i: nat, build: Row -> Result<T, seq<FieldError>>,
                      describe: seq<FieldError> -> string)
    requires i < |rows|
    ensures build(rows[i]).Failure? ==>
      RowErrors(rows[..i + 1], build, describe) == RowErrors(rows[..i], build, describe) + [RowError(i + 2, build(rows[i]).error, describe)]
    ensures build(rows[i]).Success? ==> RowErrors(rows[..i + 1], build, describe) == RowErrors(rows[..i], build, describe)
    ensures RowErrors(rows[..i + 1], build, describe) <= RowErrors(rows, build, describe)
  {
    assert rows[..i + 1][..i] == rows[..i];
    assert rows[..i + 1][i] == rows[i];
    RowErrorsPrefix(rows, i + 1, build, describe);
  }

  /** All or nothing: a frame is accepted exactly when it has every
      required column and every row is accepted, and then it yields one
      record per row, in row order. */
  lemma AllOrNothing<T>(frame: Frame, required: seq<string>, header: string,
                        build: Row -> Result<T, seq<FieldError>>, describe: seq<FieldError> -> string)
    ensures ParseTable(Read(frame), required, header, build, describe).Success? <==>
      (forall i :: 0 <= i < |required| ==> required[i] in frame.columns)
      && (forall i :: 0 <= i < |frame.rows| ==> build(frame.rows[i]).Success?)
    ensures ParseTable(Read(frame), required, header, build, describe).Success? ==>
      |ParseTable(Read(frame), required, header, build, describe).value| == |frame.rows|
      && forall i :: 0 <= i < |frame.rows| ==>
        ParseTable(Read(frame), required, header, build, describe).value[i] == build(frame.rows[i]).value
  {
    RowErrorsEmptyIff(frame.rows, build, describe);
    if forall i :: 0 <= i < |frame.rows| ==> build(frame.rows[i]).Success? {
      BuiltAll(frame.rows, build);
    }
  }

  /** A rejected row makes the whole table fail, with one report headed by
      `header` listing every rejected row. */
  lemma RejectedRowFails<T>(frame: Frame, required: seq<string>, header: string,
                            build: Row -> Result<T, seq<FieldError>>, describe: seq<FieldError> -> string, i: nat)
    requires MissingColumns(required, frame.columns) == []
    requires i < |frame.rows| && build(frame.rows[i]).Failure?
    ensures ParseTable(Read(frame), required, header, build, describe) ==
      Failure(UnreadablePrefix + Join("\n", [header] + RowErrors(frame.rows, build, describe)))
    ensures RowError(i + 2, build(frame.rows[i]).error, describe) in RowErrors(frame.rows, build, describe)
  {
    RowErrorAt(frame.rows, i, build, describe);
    var before := RowErrors(frame.rows[..i + 1], build, describe);
    assert before[|before| - 1] == RowError(i + 2, build(frame.rows[i]).error, describe);
    assert RowErrors(frame.rows, build, describe)[|before| - 1] == before[|before| - 1];
  }

  /** Every accepted reservation has positive capacities. */
  lemma ReservationsValid(input: ReadOutcome, c: Coercions, describe: seq<FieldError> -> string)
    requires ParseTable(input, ReservationColumns, ReservationHeader, ReservationBuilder(c), describe).Success?
    ensures forall i :: 0 <= i < |ParseTable(input, ReservationColumns, ReservationHeader, ReservationBuilder(c), describe).value| ==>
      ValidReservation(ParseTable(input, ReservationColumns, ReservationHeader, ReservationBuilder(c), describe).value[i])
  {
    var rows := input.frame.rows;
    AllOrNothing(input.frame, ReservationColumns, ReservationHeader, ReservationBuilder(c), describe);
    forall i | 0 <= i < |rows| ensures ValidReservation(MakeReservation(rows[i], c).value) {
      assert ReservationBuilder(c)(rows[i]) == MakeReservation(rows[i], c);
    }
  }

  // ---- the row loop ----

  /** The shared body of both parsers: check the outcome and the columns,
      then go through the rows collecting records and report lines. */
  method ParseRows<T>(input: ReadOutcome, required: seq<string>, header: string,
                      build: Row -> Result<T, seq<FieldError>>, describe: seq<FieldError> -> string)
    returns (r: Result<seq<T>, string>)
    ensures r == ParseTable(input, required, header, build, describe)
  {
    if input.EmptyData? {
      return Failure(EmptyMessage);
    }
    if input.ReadFailed? {
      return Failure(UnreadablePrefix + input.message);
    }
    var frame := input.frame;
    var missing := MissingColumns(required, frame.columns);
    if missing != [] {
      return Failure(UnreadablePrefix + MissingColumnsPrefix + Join(", ", missing));
    }
    var records: seq<T> := [];
    var errors: seq<string> := [];
    for k := 0 to |frame.rows|
      invariant records == Built(frame.rows[..k], build)
      invariant errors == RowErrors(frame.rows[..k], build, describe)
    {
      assert frame.rows[..k + 1][..k] == frame.rows[..k];
      assert frame.rows[..k + 1][k] == frame.rows[k];
      var built := build(frame.rows[k]);
      if built.Success? {
        records := records + [built.value];
      } else {
        errors := errors + [RowError(k + 2, built.error, describe)];
      }
    }
    assert frame.rows[..|frame.rows|] == frame.rows;
    if errors != [] {
      return Failure(UnreadablePrefix + Join("\n", [header] + errors));
    }
    r := Success(records);
  }

  /** `parse_reservations(file)`. */
  method ParseReservations(input: ReadOutcome, c: Coercions, describe: seq<FieldError> -> string)
    returns (r: Result<seq<Reservation>, string>)
    ensures r == ParseTable(input, ReservationColumns, ReservationHeader, ReservationBuilder(c), describe)
  {
    r := ParseRows(input, ReservationColumns, ReservationHeader, ReservationBuilder(c), describe);
  }

  /** `parse_users(file)`. */
  method ParseUsers(input: ReadOutcome, c: Coercions, describe: seq<FieldError> -> string)
    returns (r: Result<seq<User>, string>)
    ensures r == ParseTable(input, UserColumns, UserHeader, UserBuilder(c), describe)
  {
    r := ParseRows(input, UserColumns, UserHeader, UserBuilder(c), describe);
  }
}
