/** The records of the scheduler (reservations, participants, team
    assignments, schedules) and the field validation their constructors
    perform. A record is built from a row of named cells; construction
    either yields the record or the list of field errors, in field order,
    as the validation library reports them. */
module Models {
  import opened Wrappers

  /** An instant on a time line, in whole seconds. */
  type Instant = int

  /** The format both records hand to `strptime` for a datetime given as text. */
  const DatetimeFormat := "%Y-%m-%d %H:%M"

  /** A value as it arrives for one field: text, an integer, a value that is
      already a datetime, or a missing value (an empty CSV cell). */
  datatype Cell = Text(text: string) | Integer(number: int) | Stamp(instant: Instant) | Missing

  /** The conversions the records borrow from their libraries: `strptime`
      (text and a format to an instant, or a failure), the validation
      library's reading of an integer from text, and its reading of an
      integer as a datetime. */
  datatype Coercions = Coercions(
    strptime: (string, string) -> Option<Instant>,
    intFromText: string -> Option<int>,
    datetimeFromInt: int -> Option<Instant>)

  /** The three horror-room positions of a participant. */
  datatype HorrorPosition = Tank | Civilian | Scaredy

  function PositionLabel(p: HorrorPosition): string {
    match p
    case Tank => "탱커"
    case Civilian => "평민"
    case Scaredy => "쫄"
  }

  /** Why one field was rejected. */
  datatype ErrorKind =
    | FieldMissing
    | NotAString
    | NotAnInteger
    | NotADatetime
    | BadDatetimeText
    | NonPositiveCapacity
    | NotAPosition

  /** One rejected field, named by its column alias. */
  datatype FieldError = FieldError(field: string, kind: ErrorKind)

  /** One row of input: column name to cell. */
  type Row = map<string, Cell>

  datatype Reservation = Reservation(
    roomName: string,
    startTime: Instant,
    endTime: Instant,
    address: string,
    theme: string,
    minCapacity: int,
    optimalCapacity: int,
    maxCapacity: int)

  /** What a constructed reservation is known to satisfy: positive capacities.
      No order between the three capacities and none between the two times. */
  predicate ValidReservation(r: Reservation) {
    r.minCapacity > 0 && r.optimalCapacity > 0 && r.maxCapacity > 0
  }

  datatype User = User(
    name: string,
    availableFrom: Instant,
    availableUntil: Instant,
    horrorPosition: HorrorPosition)

  datatype TeamAssignment = TeamAssignment(
    teamId: int,
    reservation: Reservation,
    members: seq<User>,
    travelTimeFromPrevious: int)

  /** The teams of a schedule, in the order of the dictionary that holds them. */
  predicate DistinctTeamIds(teams: seq<(int, seq<TeamAssignment>)>) {
    forall i, j :: 0 <= i < j < |teams| ==> teams[i].0 != teams[j].0
  }

  type TeamTable = t: seq<(int, seq<TeamAssignment>)> | DistinctTeamIds(t) witness []

  datatype Schedule = Schedule(
    scenarioId: int,
    teams: TeamTable,
    score: map<string, real>,
    notes: string)

  // ---- field validation ----

  function Lookup(row: Row, alias: string): Option<Cell> {
    if alias in row then Some(row[alias]) else None
  }

  /** A text field. */
  function StrField(v: Option<Cell>): (r: Result<string, ErrorKind>)
    ensures r.Success? <==> v.Some? && v.value.Text?
  {
    match v
    case None => Failure(FieldMissing)
    case Some(Text(s)) => Success(s)
    case Some(_) => Failure(NotAString)
  }

  /** An integer field: an integer, or text the library reads as one. */
  function IntField(v: Option<Cell>, c: Coercions): (r: Result<int, ErrorKind>)
    ensures r.Success? <==> v.Some? && (v.value.Integer? || (v.value.Text? && c.intFromText(v.value.text).Some?))
    ensures r.Success? && v.value.Integer? ==> r.value == v.value.number
    ensures v.None? ==> r == Failure(FieldMissing)
  {
    match v
    case None => Failure(FieldMissing)
    case Some(Integer(n)) => Success(n)
    case Some(Text(s)) =>
      if c.intFromText(s).Some? then Success(c.intFromText(s).value) else Failure(NotAnInteger)
    case Some(_) => Failure(NotAnInteger)
  }

  /** A capacity field: an integer field that must then be strictly positive. */
  function CapacityField(v: Option<Cell>, c: Coercions): (r: Result<int, ErrorKind>)
    ensures r.Success? ==> r.value > 0
    ensures r.Success? <==> IntField(v, c).Success? && IntField(v, c).value > 0
    ensures IntField(v, c).Success? && IntField(v, c).value <= 0 ==> r == Failure(NonPositiveCapacity)
  {
    match IntField(v, c)
    case Failure(e) => Failure(e)
    case Success(n) => if n <= 0 then Failure(NonPositiveCapacity) else Success(n)
  }

  /** The "before" validator of the datetime fields: text is handed to
      `strptime` with `DatetimeFormat`; any other value passes through as it is. */
  function ParseDatetime(v: Cell, c: Coercions): (r: Result<Cell, ErrorKind>)
    ensures !v.Text? ==> r == Success(v)
    ensures v.Text? ==> (r.Success? <==> c.strptime(v.text, DatetimeFormat).Some?)
    ensures r.Success? ==> !r.value.Text?
  {
    match v
    case Text(s) =>
      if c.strptime(s, DatetimeFormat).Some? then Success(Stamp(c.strptime(s, DatetimeFormat).value))
      else Failure(BadDatetimeText)
    case _ => Success(v)
  }

  /** A datetime field: the before-validator, then the library's own reading
      of the value as a datetime. */
  function DatetimeField(v: Option<Cell>, c: Coercions): (r: Result<Instant, ErrorKind>)
    ensures v.Some? && v.value.Text? ==>
      r == (if c.strptime(v.value.text, DatetimeFormat).Some?
            then Success(c.strptime(v.value.text, DatetimeFormat).value) else Failure(BadDatetimeText))
    ensures v.Some? && v.value.Stamp? ==> r == Success(v.value.instant)
  {
    match v
    case None => Failure(FieldMissing)
    case Some(cell) =>
      match ParseDatetime(cell, c)
      case Failure(e) => Failure(e)
      case Success(Stamp(t)) => Success(t)
      case Success(Integer(n)) =>
        if c.datetimeFromInt(n).Some? then Success(c.datetimeFromInt(n).value) else Failure(NotADatetime)
      case Success(_) => Failure(NotADatetime)
  }

  /** The horror position: one of the three labels, anything else rejected. */
  function PositionField(v: Option<Cell>): (r: Result<HorrorPosition, ErrorKind>)
    ensures r.Success? <==> v.Some? && v.value.Text? && v.value.text in {"탱커", "평민", "쫄"}
    ensures r.Success? ==> PositionLabel(r.value) == v.value.text
  {
    match v
    case Some(Text(s)) =>
      if s == "탱커" then Success(Tank)
      else if s == "평민" then Success(Civilian)
      else if s == "쫄" then Success(Scaredy)
      else Failure(NotAPosition)
    case None => Failure(FieldMissing)
    case Some(_) => Failure(NotAPosition)
  }

  /** The error a field contributes to the report: none, or one. */
  function ErrorsOf<T>(alias: string, r: Result<T, ErrorKind>): seq<FieldError> {
    if r.Failure? then [FieldError(alias, r.error)] else []
  }

  /** The column aliases of a reservation, in field order. */
  const ReservationColumns: seq<string> :=
    ["방이름", "시작시간", "종료시간", "주소", "테마", "최소인원", "적정인원", "최대인원"]

  /** The column aliases of a participant, in field order. */
  const UserColumns: seq<string> := ["이름", "참여시작시간", "참여종료시간", "공포포지션"]

  /** Builds a reservation from a row: every field is validated, and the
      reservation exists only when no field failed. */
  function MakeReservation(row: Row, c: Coercions): (r: Result<Reservation, seq<FieldError>>)
    ensures r.Success? ==> ValidReservation(r.value)
    ensures r.Success? <==>
      && StrField(Lookup(row, "방이름")).Success?
      && DatetimeField(Lookup(row, "시작시간"), c).Success?
      && DatetimeField(Lookup(row, "종료시간"), c).Success?
      && StrField(Lookup(row, "주소")).Success?
      && StrField(Lookup(row, "테마")).Success?
      && CapacityField(Lookup(row, "최소인원"), c).Success?
      && CapacityField(Lookup(row, "적정인원"), c).Success?
      && CapacityField(Lookup(row, "최대인원"), c).Success?
    ensures r.Success? ==>
      && r.value.roomName == StrField(Lookup(row, "방이름")).value
      && r.value.startTime == DatetimeField(Lookup(row, "시작시간"), c).value
      && r.value.endTime == DatetimeField(Lookup(row, "종료시간"), c).value
      && r.value.address == StrField(Lookup(row, "주소")).value
      && r.value.theme == StrField(Lookup(row, "테마")).value
      && r.value.minCapacity == CapacityField(Lookup(row, "최소인원"), c).value
      && r.value.optimalCapacity == CapacityField(Lookup(row, "적정인원"), c).value
      && r.value.maxCapacity == CapacityField(Lookup(row, "최대인원"), c).value
    ensures r.Failure? ==> |r.error| > 0
  {
    var room := StrField(Lookup(row, "방이름"));
    var start := DatetimeField(Lookup(row, "시작시간"), c);
    var end := DatetimeField(Lookup(row, "종료시간"), c);
    var address := StrField(Lookup(row, "주소"));
    var theme := StrField(Lookup(row, "테마"));
    var minCap := CapacityField(Lookup(row, "최소인원"), c);
    var optCap := CapacityField(Lookup(row, "적정인원"), c);
    var maxCap := CapacityField(Lookup(row, "최대인원"), c);
    var errors :=
      ErrorsOf("방이름", room) + ErrorsOf("시작시간", start) + ErrorsOf("종료시간", end)
      + ErrorsOf("주소", address) + ErrorsOf("테마", theme) + ErrorsOf("최소인원", minCap)
      + ErrorsOf("적정인원", optCap) + ErrorsOf("최대인원", maxCap);
    if errors == [] then
      Success(Reservation(room.value, start.value, end.value, address.value, theme.value,
                          minCap.value, optCap.value, maxCap.value))
    else
      Failure(errors)
  }

  /** Builds a participant from a row, on the same terms. */
  function MakeUser(row: Row, c: Coercions): (r: Result<User, seq<FieldError>>)
    ensures r.Success? <==>
      && StrField(Lookup(row, "이름")).Success?
      && DatetimeField(Lookup(row, "참여시작시간"), c).Success?
      && DatetimeField(Lookup(row, "참여종료시간"), c).Success?
      && PositionField(Lookup(row, "공포포지션")).Success?
    ensures r.Success? ==>
      && r.value.name == StrField(Lookup(row, "이름")).value
      && r.value.availableFrom == DatetimeField(Lookup(row, "참여시작시간"), c).value
      && r.value.availableUntil == DatetimeField(Lookup(row, "참여종료시간"), c).value
      && r.value.horrorPosition == PositionField(Lookup(row, "공포포지션")).value
    ensures r.Success? ==> PositionLabel(r.value.horrorPosition) == row["공포포지션"].text
    ensures r.Failure? ==> |r.error| > 0
  {
    var name := StrField(Lookup(row, "이름"));
    var from := DatetimeField(Lookup(row, "참여시작시간"), c);
    var until := DatetimeField(Lookup(row, "참여종료시간"), c);
    var position := PositionField(Lookup(row, "공포포지션"));
    var errors :=
      ErrorsOf("이름", name) + ErrorsOf("참여시작시간", from)
      + ErrorsOf("참여종료시간", until) + ErrorsOf("공포포지션", position);
    if errors == [] then
      Success(User(name.value, from.value, until.value, position.value))
    else
      Failure(errors)
  }

  /** A capacity that is zero or negative is reported against its own column,
      and the reservation is not built. */
  lemma NonPositiveCapacityRejected(row: Row, c: Coercions, alias: string)
    requires alias in {"최소인원", "적정인원", "최대인원"}
    requires alias in row && row[alias].Integer? && row[alias].number <= 0
    ensures MakeReservation(row, c).Failure?
    ensures FieldError(alias, NonPositiveCapacity) in MakeReservation(row, c).error
  {
  }

  /** A position outside the three labels is reported, and no participant is built. */
  lemma UnknownPositionRejected(row: Row, c: Coercions)
    requires "공포포지션" in row && row["공포포지션"].Text?
    requires row["공포포지션"].text !in {"탱커", "평민", "쫄"}
    ensures MakeUser(row, c).Failure?
    ensures FieldError("공포포지션", NotAPosition) in MakeUser(row, c).error
  {
  }

  /** A team assignment; the travel time from the previous room defaults to 0. */
  function NewTeamAssignment(teamId: int, reservation: Reservation, members: seq<User>,
                             travelTimeFromPrevious: Option<int>): (t: TeamAssignment)
    ensures t.teamId == teamId && t.reservation == reservation && t.members == members
    ensures travelTimeFromPrevious.None? ==> t.travelTimeFromPrevious == 0
    ensures travelTimeFromPrevious.Some? ==> t.travelTimeFromPrevious == travelTimeFromPrevious.value
  {
    TeamAssignment(teamId, reservation, members, travelTimeFromPrevious.GetOr(0))
  }

  /** A schedule; its notes default to the empty text. */
  function NewSchedule(scenarioId: int, teams: TeamTable, score: map<string, real>,
                       notes: Option<string>): (s: Schedule)
    ensures s.scenarioId == scenarioId && s.teams == teams && s.score == score
    ensures notes.None? ==> s.notes == ""
    ensures notes.Some? ==> s.notes == notes.value
  {
    Schedule(scenarioId, teams, score, notes.GetOr(""))
  }
}
