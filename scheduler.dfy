/** The constraint predicates a proposed schedule is judged by, the balance
    score across teams, and the two text renderings (participants grouped by
    horror position, travel times one direction per address pair) handed to
    the schedule generator. */
module Scheduler {
  import opened Wrappers
  import opened Text
  import opened Models

  // ---- constraint predicates ----

  /** The instant `t` lies in the closed window from `lo` to `hi`. */
  predicate InWindow(t: Instant, lo: Instant, hi: Instant) {
    lo <= t <= hi
  }

  /** The participant is available from `startTime` to `endTime`: every
      instant of that period lies in the participant's window. */
  predicate IsUserAvailable(user: User, startTime: Instant, endTime: Instant): (r: bool)
    ensures r ==> forall t :: InWindow(t, startTime, endTime) ==> InWindow(t, user.availableFrom, user.availableUntil)
  {
    user.availableFrom <= startTime && user.availableUntil >= endTime
  }

  /** Availability is containment of the whole period, both ends included,
      in the participant's window. */
  lemma AvailableIffContained(user: User, startTime: Instant, endTime: Instant)
    requires startTime <= endTime
    ensures IsUserAvailable(user, startTime, endTime) <==>
      forall t :: InWindow(t, startTime, endTime) ==> InWindow(t, user.availableFrom, user.availableUntil)
  {
    assert InWindow(startTime, startTime, endTime) && InWindow(endTime, startTime, endTime);
  }

  /** The number of members fits the room; `flexible` (the default) widens
      the band by one person on each side. */
  predicate IsCapacityValid(reservation: Reservation, numMembers: int, flexible: bool := true): (r: bool)
    ensures reservation.minCapacity <= numMembers <= reservation.maxCapacity ==> r
    ensures r ==> reservation.minCapacity - 1 <= numMembers <= reservation.maxCapacity + 1
  {
    if flexible then
      reservation.minCapacity - 1 <= numMembers <= reservation.maxCapacity + 1
    else
      reservation.minCapacity <= numMembers <= reservation.maxCapacity
  }

  /** A strictly valid team size is also flexibly valid. */
  lemma StrictCapacityImpliesFlexible(reservation: Reservation, numMembers: int)
    ensures IsCapacityValid(reservation, numMembers, false) ==> IsCapacityValid(reservation, numMembers, true)
  {
  }

  predicate WithinOne(a: int, b: int) {
    -1 <= a - b <= 1
  }

  /** For a room whose bounds are in order, the flexible band holds exactly
      the sizes within one person of a strictly valid size. */
  lemma FlexibleIsStrictWidenedByOne(reservation: Reservation, numMembers: int)
    requires reservation.minCapacity <= reservation.maxCapacity
    ensures IsCapacityValid(reservation, numMembers) <==>
      exists m :: WithinOne(m, numMembers) && IsCapacityValid(reservation, m, false)
  {
    if IsCapacityValid(reservation, numMembers) {
      var m := if numMembers < reservation.minCapacity then numMembers + 1
               else if numMembers > reservation.maxCapacity then numMembers - 1 else numMembers;
      assert WithinOne(m, numMembers) && IsCapacityValid(reservation, m, false);
    }
  }

  /** The sizes just outside the flexible band are refused. */
  lemma CapacityBandEdges(reservation: Reservation)
    ensures !IsCapacityValid(reservation, reservation.minCapacity - 2)
    ensures !IsCapacityValid(reservation, reservation.maxCapacity + 2)
    ensures reservation.minCapacity <= reservation.maxCapacity ==>
      IsCapacityValid(reservation, reservation.minCapacity - 1) && IsCapacityValid(reservation, reservation.maxCapacity + 1)
  {
  }

  /** The gap between the rooms, in (fractional) minutes, is at least the
      travel time; on whole seconds, the gap is at least sixty times the
      travel minutes. */
  predicate IsTravelTimeFeasible(prevReservation: Reservation, nextReservation: Reservation, travelTimeMinutes: int): (r: bool)
    ensures r <==> nextReservation.startTime - prevReservation.endTime >= 60 * travelTimeMinutes
  {
    var gap := nextReservation.startTime - prevReservation.endTime;
    var timeGap := gap as real / 60.0;
    assert (timeGap >= travelTimeMinutes as real) <==> (gap as real >= 60.0 * travelTimeMinutes as real);
    timeGap >= travelTimeMinutes as real
  }

  /** An exact fit is feasible, and a negative gap is never feasible when
      travel takes no negative time. */
  lemma TravelGapEdges(prev: Reservation, next: Reservation, travel: int)
    ensures next.startTime - prev.endTime == 60 * travel ==> IsTravelTimeFeasible(prev, next, travel)
    ensures next.startTime < prev.endTime && travel >= 0 ==> !IsTravelTimeFeasible(prev, next, travel)
  {
  }

  /** The marker of a horror theme. */
  const HorrorMarker := "공포"

  /** The room's theme, lower-cased, mentions horror; lower-casing plays no
      part, since the theme itself mentions horror exactly then. */
  predicate NeedsHorrorTank(reservation: Reservation): (r: bool)
    ensures r <==> Contains(reservation.theme, HorrorMarker)
  {
    LowerKeepsMarker(reservation.theme, HorrorMarker);
    Contains(Lower(reservation.theme), HorrorMarker)
  }

  lemma HorrorThemeExamples(r: Reservation)
    ensures r.theme == "공포의 지하실" ==> NeedsHorrorTank(r)
    ensures r.theme == "추리" ==> !NeedsHorrorTank(r)
  {
    if r.theme == "공포의 지하실" {
      assert OccursAt(r.theme, HorrorMarker, 0);
    }
    if r.theme == "추리" {
      forall k ensures !OccursAt(r.theme, HorrorMarker, k) {
        if 0 <= k && k + 2 <= 2 {
          assert r.theme[k] != HorrorMarker[0];
          assert r.theme[k..k + 2][0] == r.theme[k];
        }
      }
    }
  }

  // ---- balance score ----
  //
  // With n teams, T assignments in all and counts c_i, the source computes
  // mean = T / n, variance = sum((c_i - mean)^2) / n and divides the variance
  // by mean^2.  Multiplying every deviation by n gives the same quotient in
  // whole numbers: variance / mean^2 == D / (n * T * T), where
  // D = sum((n * c_i - T)^2).  The model evaluates that exact form.

  /** The number of assignments of each team, in team order. */
  function Counts(teams: TeamTable): (cs: seq<nat>)
    ensures |cs| == |teams|
    ensures forall i :: 0 <= i < |teams| ==> cs[i] == |teams[i].1|
  {
    seq(|teams|, i requires 0 <= i < |teams| => |teams[i].1|)
  }

  function Total(cs: seq<nat>): nat {
    if cs == [] then 0 else cs[0] + Total(cs[1..])
  }

  /** `k ** 2`: never negative, and zero only at zero. */
  function Square(k: int): (r: nat)
    ensures r == 0 <==> k == 0
  {
    k * k
  }

  /** The sum of the squared deviations of the counts from the mean, each
      deviation scaled by `n` (so that `T / n` becomes `T`). */
  function ScaledDeviation(cs: seq<nat>, n: nat, total: nat): nat {
    if cs == [] then 0 else Square(n * cs[0] - total) + ScaledDeviation(cs[1..], n, total)
  }

  /** The deviations vanish exactly when every scaled count equals the total. */
  lemma {:induction false} ScaledDeviationZero(cs: seq<nat>, n: nat, total: nat)
    ensures ScaledDeviation(cs, n, total) == 0 <==> forall i :: 0 <= i < |cs| ==> n * cs[i] == total
  {
    if cs != [] {
      ScaledDeviationZero(cs[1..], n, total);
      if forall i :: 0 <= i < |cs| ==> n * cs[i] == total {
        assert forall i :: 0 <= i < |cs[1..]| ==> cs[1..][i] == cs[i + 1];
      }
      if ScaledDeviation(cs, n, total) == 0 {
        forall i | 0 <= i < |cs| ensures n * cs[i] == total {
          if i > 0 { assert cs[i] == cs[1..][i - 1]; }
        }
      }
    }
  }

  lemma {:induction false} TotalZero(cs: seq<nat>)
    ensures Total(cs) == 0 <==> forall i :: 0 <= i < |cs| ==> cs[i] == 0
  {
    if cs != [] {
      TotalZero(cs[1..]);
      if Total(cs) == 0 {
        forall i | 0 <= i < |cs| ensures cs[i] == 0 {
          if i > 0 { assert cs[i] == cs[1..][i - 1]; }
        }
      }
      if forall i :: 0 <= i < |cs| ==> cs[i] == 0 {
        assert forall i :: 0 <= i < |cs[1..]| ==> cs[1..][i] == cs[i + 1];
      }
    }
  }

  lemma {:induction false} TotalOfEqual(cs: seq<nat>, c: nat)
    requires forall i :: 0 <= i < |cs| ==> cs[i] == c
    ensures Total(cs) == |cs| * c
  {
    if cs != [] {
      assert forall i :: 0 <= i < |cs[1..]| ==> cs[1..][i] == cs[i + 1];
      TotalOfEqual(cs[1..], c);
    }
  }

  /** `n * T * T`, the scaled squared mean times `n`. */
  function Denominator(n: nat, total: nat): (r: nat)
    ensures n > 0 && total > 0 ==> r > 0
  {
    n * total * total
  }

  lemma Quotient(a: nat, b: nat)
    requires b > 0
    ensures a as real / b as real >= 0.0
    ensures a as real / b as real == 0.0 <==> a == 0
  {
  }

  /** The score of a list of counts: 0 for no teams, 1 when no team has an
      assignment, otherwise one minus the variance over the squared mean,
      floored at 0. */
  function ScoreOfCounts(cs: seq<nat>): (r: real)
    ensures 0.0 <= r <= 1.0
    ensures cs == [] ==> r == 0.0
    ensures cs != [] && (forall i :: 0 <= i < |cs| ==> cs[i] == 0) ==> r == 1.0
  {
    if cs == [] then 0.0
    else
      var n := |cs|;
      var total := Total(cs);
      TotalZero(cs);
      if total == 0 then 1.0
      else
        var denominator := Denominator(n, total);
        Quotient(ScaledDeviation(cs, n, total), denominator);
        var normalizedVariance := ScaledDeviation(cs, n, total) as real / denominator as real;
        if 1.0 - normalizedVariance > 0.0 then 1.0 - normalizedVariance else 0.0
  }

  /** The balance score of a schedule, from 0.0 to 1.0. */
  function BalanceScore(schedule: Schedule): (r: real)
    ensures 0.0 <= r <= 1.0
    ensures |schedule.teams| == 0 ==> r == 0.0
    ensures |schedule.teams| > 0 && (forall i :: 0 <= i < |schedule.teams| ==> schedule.teams[i].1 == []) ==> r == 1.0
  {
    ScoreOfCounts(Counts(schedule.teams))
  }

  // ---- the source's formula on reals ----

  /** `total / n` on reals. */
  function MeanOf(total: nat, n: nat): real
    requires n > 0
  {
    total as real / n as real
  }

  /** `(c - mean) ** 2`. */
  function Deviation2(c: nat, mean: real): (r: real)
    ensures r >= 0.0
  {
    (c as real - mean) * (c as real - mean)
  }

  /** `sum((c - mean) ** 2 for c in cs)`. */
  function SquaredDeviations(cs: seq<nat>, mean: real): (r: real)
    ensures r >= 0.0
  {
    if cs == [] then 0.0 else Deviation2(cs[0], mean) + SquaredDeviations(cs[1..], mean)
  }

  /** `n * n * x`, kept whole so that the arithmetic below stays linear. */
  function Scaled(n: nat, x: real): real {
    (n as real * n as real) * x
  }

  lemma RealOfProduct(a: int, b: int)
    ensures (a * b) as real == a as real * b as real
  {
  }

  lemma Regroup(x: real, y: real)
    ensures (x * y) * (x * y) == (x * x) * (y * y)
  {
  }

  lemma Distribute(k: real, a: real, b: real)
    ensures k * (a + b) == k * a + k * b
  {
  }

  /** One scaled deviation is `n * n` times the squared deviation from the
      mean `total / n`. */
  lemma ScaledTerm(c: nat, n: nat, total: nat)
    requires n > 0
    ensures Square(n * c - total) as real == Scaled(n, Deviation2(c, MeanOf(total, n)))
  {
    var m := MeanOf(total, n);
    var d := n * c - total;
    assert n as real * m == total as real;
    RealOfProduct(d, d);
    RealOfProduct(n, c);
    assert d as real == n as real * (c as real - m);
    Regroup(n as real, c as real - m);
  }

  /** Adding two scaled terms scales their sum. */
  lemma Combine(whole: real, first: real, others: real, n: nat, head: real, rest: real, sum: real)
    requires whole == first + others && sum == head + rest
    requires first == Scaled(n, head) && others == Scaled(n, rest)
    ensures whole == Scaled(n, sum)
  {
    Distribute(n as real * n as real, head, rest);
  }

  /** The scaled deviations are `n * n` times the squared deviations from
      the mean `total / n`. */
  lemma {:induction false} ScaledDeviationReal(cs: seq<nat>, n: nat, total: nat)
    requires n > 0
    ensures ScaledDeviation(cs, n, total) as real == Scaled(n, SquaredDeviations(cs, MeanOf(total, n)))
  {
    if cs != [] {
      var m := MeanOf(total, n);
      ScaledTerm(cs[0], n, total);
      ScaledDeviationReal(cs[1..], n, total);
      Combine(ScaledDeviation(cs, n, total) as real, Square(n * cs[0] - total) as real,
        ScaledDeviation(cs[1..], n, total) as real, n,
        Deviation2(cs[0], m), SquaredDeviations(cs[1..], m), SquaredDeviations(cs, m));
    }
  }

  /** `(s / n) / ((t / n) * (t / n))` is `(n * n * s) / (n * t * t)`. */
  lemma QuotientOfMeans(n: real, t: real, s: real)
    requires n > 0.0 && t > 0.0
    ensures (s / n) / ((t / n) * (t / n)) == (n * n * s) / (n * t * t)
  {
    var m := t / n;
    var v := s / n;
    var q := v / (m * m);
    assert m * n == t;
    assert v * n == s;
    assert m * m > 0.0;
    assert q * (m * m) == v;
    assert n * t * t == n * n * n * (m * m);
    assert q * (n * t * t) == n * n * n * v;
    assert q * (n * t * t) == n * n * s;
    assert n * t * t > 0.0;
  }

  /** Dividing by the whole-number denominator is dividing the mean of the
      squared deviations by the squared mean. */
  lemma Normalize(n: nat, total: nat, sq: real)
    requires n > 0 && total > 0
    ensures Scaled(n, sq) / Denominator(n, total) as real
      == (sq / n as real) / (MeanOf(total, n) * MeanOf(total, n))
  {
    RealOfProduct(n, total);
    RealOfProduct(n * total, total);
    QuotientOfMeans(n as real, total as real, sq);
  }

  /** The quotient `ScoreOfCounts` evaluates, with `n` the number of teams
      and `t` the number of assignments, is the source's
      `variance / mean_count ** 2` on exact reals: `mean_count` is `t / n`
      and `variance` the mean of the squared deviations from it. */
  lemma NormalizedVariance(cs: seq<nat>, n: nat, t: nat)
    requires n > 0 && t > 0
    ensures var mean := MeanOf(t, n);
      var variance := SquaredDeviations(cs, mean) / n as real;
      ScaledDeviation(cs, n, t) as real / Denominator(n, t) as real == variance / (mean * mean)
  {
    ScaledDeviationReal(cs, n, t);
    Normalize(n, t, SquaredDeviations(cs, MeanOf(t, n)));
  }

  lemma Cancel(n: nat, a: nat, b: nat)
    requires n > 0 && n * a == n * b
    ensures a == b
  {
  }

  /** With some assignment at all, the score is 1.0 exactly when there is no
      deviation. */
  lemma ScoreOneIffNoDeviation(cs: seq<nat>)
    requires cs != [] && Total(cs) > 0
    ensures ScoreOfCounts(cs) == 1.0 <==> ScaledDeviation(cs, |cs|, Total(cs)) == 0
  {
    var d := ScaledDeviation(cs, |cs|, Total(cs));
    var den := Denominator(|cs|, Total(cs));
    TotalZero(cs);
    Quotient(d, den);
  }

  /** Every scaled count equals the total exactly when all counts are equal. */
  lemma ScaledEqualIffEven(cs: seq<nat>)
    requires cs != []
    ensures (forall i :: 0 <= i < |cs| ==> |cs| * cs[i] == Total(cs)) <==> forall i :: 0 <= i < |cs| ==> cs[i] == cs[0]
  {
    var n := |cs|;
    if forall i :: 0 <= i < |cs| ==> cs[i] == cs[0] {
      TotalOfEqual(cs, cs[0]);
    }
    if forall i :: 0 <= i < |cs| ==> n * cs[i] == Total(cs) {
      forall i | 0 <= i < |cs| ensures cs[i] == cs[0] {
        Cancel(n, cs[i], cs[0]);
      }
    }
  }

  /** With at least one team, the score is 1.0 exactly when every team has
      the same number of assignments. */
  lemma ScoreOneIffEven(cs: seq<nat>)
    requires cs != []
    ensures ScoreOfCounts(cs) == 1.0 <==> forall i :: 0 <= i < |cs| ==> cs[i] == cs[0]
  {
    TotalZero(cs);
    if Total(cs) > 0 {
      ScoreOneIffNoDeviation(cs);
      ScaledDeviationZero(cs, |cs|, Total(cs));
      ScaledEqualIffEven(cs);
    } else {
      assert ScoreOfCounts(cs) == 1.0;
    }
  }

  lemma BalanceExamples()
    ensures ScoreOfCounts([2, 2, 2]) == 1.0
    ensures ScoreOfCounts([4, 0]) == 0.0
  {
    ScoreOneIffEven([2, 2, 2]);
    var cs: seq<nat> := [4, 0];
    assert Total(cs) == 4;
    assert ScaledDeviation(cs, 2, 4) == 32;
  }

  // ---- participants grouped by horror position ----

  /** The names of the participants holding position `p`, in input order. */
  function NamesWith(users: seq<User>, p: HorrorPosition): seq<string> {
    if users == [] then []
    else (if users[0].horrorPosition == p then [users[0].name] else []) + NamesWith(users[1..], p)
  }

  function Names(users: seq<User>): seq<string> {
    if users == [] then [] else [users[0].name] + Names(users[1..])
  }

  /** The three groups together hold every participant exactly once. */
  lemma {:induction false} GroupsPartitionUsers(users: seq<User>)
    ensures multiset(NamesWith(users, Tank)) + multiset(NamesWith(users, Civilian))
      + multiset(NamesWith(users, Scaredy)) == multiset(Names(users))
    ensures |NamesWith(users, Tank)| + |NamesWith(users, Civilian)| + |NamesWith(users, Scaredy)| == |users|
  {
    if users != [] {
      GroupsPartitionUsers(users[1..]);
    }
  }

  function GroupLine(p: HorrorPosition, names: seq<string>): string {
    "- " + PositionLabel(p) + " (" + NatToString(|names|) + "명): " + Join(", ", names)
  }

  const ParticipantsTitle := "참여자 정보:"

  /** The title line and the three position lines, in the source's order. */
  function ListingLines(users: seq<User>): seq<string> {
    [ParticipantsTitle,
     GroupLine(Tank, NamesWith(users, Tank)),
     GroupLine(Civilian, NamesWith(users, Civilian)),
     GroupLine(Scaredy, NamesWith(users, Scaredy))]
  }

  lemma ListingShape(users: seq<User>)
    ensures var r := Join("\n", ListingLines(users));
      && |r| >= |ParticipantsTitle| && r[..|ParticipantsTitle|] == ParticipantsTitle
      && forall p :: Contains(r, GroupLine(p, NamesWith(users, p)))
  {
    var lines := ListingLines(users);
    var r := Join("\n", lines);
    assert r == ParticipantsTitle + ("\n" + Join("\n", lines[1..]));
    JoinContainsAll("\n", lines);
    forall p ensures Contains(r, GroupLine(p, NamesWith(users, p))) {
      var k := match p case Tank => 1 case Civilian => 2 case Scaredy => 3;
      assert lines[k] == GroupLine(p, NamesWith(users, p));
    }
  }

  /** The participant listing: a title line, then one line per position. */
  function FormatUsersForClaude(users: seq<User>): (r: string)
    ensures |r| >= |ParticipantsTitle| && r[..|ParticipantsTitle|] == ParticipantsTitle
    ensures forall p :: Contains(r, GroupLine(p, NamesWith(users, p)))
  {
    ListingShape(users);
    Join("\n", ListingLines(users))
  }

  // ---- travel times, one direction per address pair ----

  /** `matrix.get((a, b), 0)`. */
  function TimeOf(matrix: map<(string, string), int>, a: string, b: string): int {
    if (a, b) in matrix then matrix[(a, b)] else 0
  }

  /** Every address that appears in a key of the matrix. */
  function Addresses(matrix: map<(string, string), int>): set<string> {
    (set p | p in matrix :: p.0) + (set p | p in matrix :: p.1)
  }

  datatype TravelPair = TravelPair(start: string, end: string, minutes: int)

  /** The line is about the unordered pair of `a` and `b`. */
  predicate Covers(p: TravelPair, a: string, b: string) {
    (p.start == a && p.end == b) || (p.start == b && p.end == a)
  }

  /** `list(set(...))`: the elements of a set once each, in no particular order. */
  method ListOfSet(s: set<string>) returns (r: seq<string>)
    ensures forall x :: x in r <==> x in s
    ensures forall i, j :: 0 <= i < j < |r| ==> r[i] != r[j]
  {
    r := [];
    var rest := s;
    while rest != {}
      invariant forall x :: x in r ==> x in s && x !in rest
      invariant forall x :: x in s ==> x in r || x in rest
      invariant rest <= s
      invariant forall i, j :: 0 <= i < j < |r| ==> r[i] != r[j]
      decreases rest
    {
      var x :| x in rest;
      r := r + [x];
      rest := rest - {x};
    }
  }

  /** What the travel listing promises of the pairs it shows: each lists a
      positive time for two different addresses of the matrix, no unordered
      pair is shown twice, and every pair of addresses with a positive time
      in both directions is shown. */
  ghost predicate ShowsTravel(matrix: map<(string, string), int>, pairs: seq<TravelPair>) {
    && (forall k :: 0 <= k < |pairs| ==>
         pairs[k].start in Addresses(matrix) && pairs[k].end in Addresses(matrix) && pairs[k].start != pairs[k].end)
    && (forall k :: 0 <= k < |pairs| ==>
         pairs[k].minutes == TimeOf(matrix, pairs[k].start, pairs[k].end) && pairs[k].minutes > 0)
    && (forall k, l :: 0 <= k < l < |pairs| ==> !Covers(pairs[l], pairs[k].start, pairs[k].end))
    && (forall a, b ::
         (a in Addresses(matrix) && b in Addresses(matrix) && a != b
          && TimeOf(matrix, a, b) > 0 && TimeOf(matrix, b, a) > 0) ==>
         exists k :: 0 <= k < |pairs| && Covers(pairs[k], a, b))
  }

  /** Index pair `x` comes before index pair `y` in the order of the nested loops. */
  predicate Before(x: (int, int), y: (int, int)) {
    x.0 < y.0 || (x.0 == y.0 && x.1 < y.1)
  }

  /** The state of the nested loops once every index pair before `next` has
      been examined: `pairs[k]` is the pair at indices `idx[k]`, the indices
      come in loop order, and every examined pair with a positive time is listed. */
  ghost predicate ListedUpTo(matrix: map<(string, string), int>, addresses: seq<string>,
                             pairs: seq<TravelPair>, idx: seq<(int, int)>, next: (int, int)) {
    && |idx| == |pairs|
    && (forall k :: 0 <= k < |idx| ==>
         0 <= idx[k].0 < idx[k].1 < |addresses| && Before(idx[k], next)
         && pairs[k] == TravelPair(addresses[idx[k].0], addresses[idx[k].1], pairs[k].minutes)
         && pairs[k].minutes == TimeOf(matrix, pairs[k].start, pairs[k].end) && pairs[k].minutes > 0)
    && (forall k, l :: 0 <= k < l < |idx| ==> Before(idx[k], idx[l]))
    && (forall p, q ::
         (0 <= p < q < |addresses| && Before((p, q), next)
          && TimeOf(matrix, addresses[p], addresses[q]) > 0) ==> (p, q) in idx)
  }

  /** One step of the inner loop: index pair `(i, j)` has a positive time
      and is listed. */
  lemma ListedAppend(matrix: map<(string, string), int>, addresses: seq<string>,
                     pairs: seq<TravelPair>, idx: seq<(int, int)>, i: int, j: int)
    requires 0 <= i < j < |addresses|
    requires ListedUpTo(matrix, addresses, pairs, idx, (i, j))
    requires TimeOf(matrix, addresses[i], addresses[j]) > 0
    ensures ListedUpTo(matrix, addresses,
                       pairs + [TravelPair(addresses[i], addresses[j], TimeOf(matrix, addresses[i], addresses[j]))],
                       idx + [(i, j)], (i, j + 1))
  {
    var time := TimeOf(matrix, addresses[i], addresses[j]);
    var pairs', idx' := pairs + [TravelPair(addresses[i], addresses[j], time)], idx + [(i, j)];
    forall k | 0 <= k < |idx'|
      ensures 0 <= idx'[k].0 < idx'[k].1 < |addresses| && Before(idx'[k], (i, j + 1))
      ensures pairs'[k] == TravelPair(addresses[idx'[k].0], addresses[idx'[k].1], pairs'[k].minutes)
      ensures pairs'[k].minutes == TimeOf(matrix, pairs'[k].start, pairs'[k].end) && pairs'[k].minutes > 0
    {
      if k < |idx| {
        assert idx'[k] == idx[k] && pairs'[k] == pairs[k];
      }
    }
    forall k, l | 0 <= k < l < |idx'| ensures Before(idx'[k], idx'[l]) {
      assert idx'[k] == idx[k];
      if l < |idx| {
        assert idx'[l] == idx[l];
      }
    }
    forall p, q | 0 <= p < q < |addresses| && Before((p, q), (i, j + 1))
      && TimeOf(matrix, addresses[p], addresses[q]) > 0
      ensures (p, q) in idx'
    {
      if (p, q) != (i, j) {
        assert Before((p, q), (i, j));
        assert (p, q) in idx;
      } else {
        assert idx'[|idx|] == (p, q);
      }
    }
  }

  /** One step of the inner loop: index pair `(i, j)` has no positive time
      and is passed over. */
  lemma ListedSkip(matrix: map<(string, string), int>, addresses: seq<string>,
                   pairs: seq<TravelPair>, idx: seq<(int, int)>, i: int, j: int)
    requires 0 <= i < j < |addresses|
    requires ListedUpTo(matrix, addresses, pairs, idx, (i, j))
    requires TimeOf(matrix, addresses[i], addresses[j]) <= 0
    ensures ListedUpTo(matrix, addresses, pairs, idx, (i, j + 1))
  {
    forall p, q | 0 <= p < q < |addresses| && Before((p, q), (i, j + 1))
      && TimeOf(matrix, addresses[p], addresses[q]) > 0
      ensures (p, q) in idx
    {
      assert Before((p, q), (i, j));
    }
  }

  /** The end of a row of the nested loops is the start of the next row. */
  lemma ListedNextRow(matrix: map<(string, string), int>, addresses: seq<string>,
                      pairs: seq<TravelPair>, idx: seq<(int, int)>, i: int)
    requires 0 <= i < |addresses|
    requires ListedUpTo(matrix, addresses, pairs, idx, (i, |addresses|))
    ensures ListedUpTo(matrix, addresses, pairs, idx, (i + 1, i + 2))
  {
    forall p, q | 0 <= p < q < |addresses| && Before((p, q), (i + 1, i + 2))
      ensures Before((p, q), (i, |addresses|))
    {
    }
  }

  /** Pairs listed at index pairs in loop order cover different unordered
      pairs of addresses, the addresses being distinct. */
  lemma ListedNoRepeat(matrix: map<(string, string), int>, addresses: seq<string>,
                       pairs: seq<TravelPair>, idx: seq<(int, int)>, next: (int, int))
    requires forall i, j :: 0 <= i < j < |addresses| ==> addresses[i] != addresses[j]
    requires ListedUpTo(matrix, addresses, pairs, idx, next)
    ensures forall k, l :: 0 <= k < l < |pairs| ==> !Covers(pairs[l], pairs[k].start, pairs[k].end)
  {
    forall k, l | 0 <= k < l < |pairs| ensures !Covers(pairs[l], pairs[k].start, pairs[k].end) {
      var a, b, c, d := idx[k].0, idx[k].1, idx[l].0, idx[l].1;
      assert Before(idx[k], idx[l]);
      assert a != c ==> addresses[a] != addresses[c];
      assert b != d ==> addresses[b] != addresses[d];
      assert addresses[c] == addresses[b] ==> c == b;
    }
  }

  /** Once every pair of positions has been examined, every pair of
      addresses with a positive time both ways is covered. */
  lemma ListedComplete(matrix: map<(string, string), int>, addresses: seq<string>,
                       pairs: seq<TravelPair>, idx: seq<(int, int)>)
    requires forall x :: x in addresses <==> x in Addresses(matrix)
    requires ListedUpTo(matrix, addresses, pairs, idx, (|addresses|, |addresses| + 1))
    ensures forall a, b ::
         (a in Addresses(matrix) && b in Addresses(matrix) && a != b
          && TimeOf(matrix, a, b) > 0 && TimeOf(matrix, b, a) > 0) ==>
         exists k :: 0 <= k < |pairs| && Covers(pairs[k], a, b)
  {
    forall a, b | a in Addresses(matrix) && b in Addresses(matrix) && a != b
      && TimeOf(matrix, a, b) > 0 && TimeOf(matrix, b, a) > 0
      ensures exists k :: 0 <= k < |pairs| && Covers(pairs[k], a, b)
    {
      var p :| 0 <= p < |addresses| && addresses[p] == a;
      var q :| 0 <= q < |addresses| && addresses[q] == b;
      var k;
      if p < q {
        assert Before((p, q), (|addresses|, |addresses| + 1));
        k :| 0 <= k < |idx| && idx[k] == (p, q);
      } else {
        assert Before((q, p), (|addresses|, |addresses| + 1));
        k :| 0 <= k < |idx| && idx[k] == (q, p);
      }
      assert Covers(pairs[k], a, b);
    }
  }

  /** Once every pair of distinct positions has been examined, the listing
      keeps the promise of `ShowsTravel`. */
  lemma ListedAllShows(matrix: map<(string, string), int>, addresses: seq<string>,
                       pairs: seq<TravelPair>, idx: seq<(int, int)>)
    requires forall x :: x in addresses <==> x in Addresses(matrix)
    requires forall i, j :: 0 <= i < j < |addresses| ==> addresses[i] != addresses[j]
    requires ListedUpTo(matrix, addresses, pairs, idx, (|addresses|, |addresses| + 1))
    ensures ShowsTravel(matrix, pairs)
  {
    ListedNoRepeat(matrix, addresses, pairs, idx, (|addresses|, |addresses| + 1));
    ListedComplete(matrix, addresses, pairs, idx);
    forall k | 0 <= k < |pairs|
      ensures pairs[k].start in Addresses(matrix) && pairs[k].end in Addresses(matrix)
      ensures pairs[k].start != pairs[k].end
    {
      assert pairs[k].start == addresses[idx[k].0] && pairs[k].end == addresses[idx[k].1];
    }
  }

  /** Before the first pair nothing has been examined. */
  lemma ListedStart(matrix: map<(string, string), int>, addresses: seq<string>)
    ensures ListedUpTo(matrix, addresses, [], [], (0, 1))
  {
    forall p, q | 0 <= p < q < |addresses| && Before((p, q), (0, 1)) ensures false { }
  }

  /** The inner loop of the travel listing: the pairs of the address at `i`
      with every address after it. */
  method ListRow(matrix: map<(string, string), int>, addresses: seq<string>,
                 pairs0: seq<TravelPair>, ghost idx0: seq<(int, int)>, i: int)
    returns (pairs: seq<TravelPair>, ghost idx: seq<(int, int)>)
    requires 0 <= i < |addresses|
    requires ListedUpTo(matrix, addresses, pairs0, idx0, (i, i + 1))
    ensures ListedUpTo(matrix, addresses, pairs, idx, (i + 1, i + 2))
  {
    pairs, idx := pairs0, idx0;
    for j := i + 1 to |addresses|
      invariant ListedUpTo(matrix, addresses, pairs, idx, (i, j))
    {
      var time := TimeOf(matrix, addresses[i], addresses[j]);
      if time > 0 {
        ListedAppend(matrix, addresses, pairs, idx, i, j);
        pairs := pairs + [TravelPair(addresses[i], addresses[j], time)];
        idx := idx + [(i, j)];
      } else {
        ListedSkip(matrix, addresses, pairs, idx, i, j);
      }
    }
    ListedNextRow(matrix, addresses, pairs, idx, i);
  }

  /** The pairs the travel listing shows, examining each unordered pair of
      addresses once, in the direction the address list happens to give it. */
  method TravelListing(matrix: map<(string, string), int>) returns (pairs: seq<TravelPair>)
    ensures ShowsTravel(matrix, pairs)
  {
    var addresses := ListOfSet(Addresses(matrix));
    var n := |addresses|;
    pairs := [];
    ghost var idx: seq<(int, int)> := [];
    ListedStart(matrix, addresses);
    for i := 0 to n
      invariant ListedUpTo(matrix, addresses, pairs, idx, (i, i + 1))
    {
      pairs, idx := ListRow(matrix, addresses, pairs, idx, i);
    }
    ListedAllShows(matrix, addresses, pairs, idx);
  }

  function TravelLine(p: TravelPair): string {
    "- " + p.start + " → " + p.end + ": " + IntToString(p.minutes) + "분"
  }

  /** The travel listing: a title line, then one line per shown pair. */
  method FormatTravelTimesForClaude(matrix: map<(string, string), int>) returns (text: string)
    ensures exists pairs :: (ShowsTravel(matrix, pairs)
      && text == Join("\n", ["이동 시간 (분):"] + seq(|pairs|, k requires 0 <= k < |pairs| => TravelLine(pairs[k]))))
  {
    var pairs := TravelListing(matrix);
    text := Join("\n", ["이동 시간 (분):"] + seq(|pairs|, k requires 0 <= k < |pairs| => TravelLine(pairs[k])));
  }
}
