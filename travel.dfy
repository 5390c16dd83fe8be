/** The travel-time client: geocoding an address, the driving time between
    two addresses, and the all-pairs matrix with its fallback.  The two web
    services are given as functions from a request to its reply, so a reply
    is fixed per request; every transport, status or decoding failure is one
    of the reply shapes below. */
module Travel {
  import opened Wrappers

  /** Longitude and latitude of a geocoded address. */
  datatype Coord = Coord(longitude: real, latitude: real)

  /** One geocoding candidate; `point` is absent when its `x` or `y` is
      missing or is not a number. */
  datatype Candidate = Candidate(point: Option<Coord>)

  /** What the geocoding service answers: a fault (HTTP error, timeout,
      malformed body) or a decoded body. */
  datatype GeocodeReply =
    | GeocodeFault
    | GeocodeBody(status: Option<string>, addresses: seq<Candidate>)

  /** One route leg; `durationMs` is absent when the summary or its
      duration is missing. */
  datatype Leg = Leg(durationMs: Option<int>)

  /** A route object, with its list of `trafast` legs (empty when absent). */
  datatype Route = Route(trafast: seq<Leg>)

  /** What the directions service answers; `route` is absent when the body
      has no (or an empty) route. */
  datatype DirectionsReply =
    | DirectionsFault
    | DirectionsBody(code: Option<int>, route: Option<Route>)

  const MsPerMinute: nat := 1000 * 60
  /** Minutes assumed for a pair whose driving time cannot be found. */
  const FallbackMinutes: nat := 30
  const CredentialsError := "Naver Maps API credentials are not set"

  /** The coordinates a geocoding reply yields: those of the first
      candidate, and only when the status is "OK" and there is a candidate. */
  function GeocodeResult(reply: GeocodeReply): (r: Option<Coord>)
    ensures r.Some? <==>
      (reply.GeocodeBody? && reply.status == Some("OK") && |reply.addresses| > 0 && reply.addresses[0].point.Some?)
    ensures r.Some? ==> r == reply.addresses[0].point
    ensures reply.GeocodeFault? ==> r.None?
  {
    match reply
    case GeocodeFault => None
    case GeocodeBody(status, addresses) =>
      if status == Some("OK") && |addresses| > 0 then addresses[0].point else None
  }

  /** The driving time a directions reply yields: the first fastest leg's
      duration in whole minutes, rounded down. */
  function RouteMinutes(reply: DirectionsReply): (r: Option<int>)
    ensures r.Some? <==>
      (&& reply.DirectionsBody? && reply.code == Some(0) && reply.route.Some?
       && |reply.route.value.trafast| > 0 && reply.route.value.trafast[0].durationMs.Some?)
    ensures r.Some? ==>
      var ms := reply.route.value.trafast[0].durationMs.value;
      r.value * MsPerMinute <= ms < (r.value + 1) * MsPerMinute
  {
    match reply
    case DirectionsFault => None
    case DirectionsBody(code, route) =>
      if code == Some(0) && route.Some? && |route.value.trafast| > 0 then
        match route.value.trafast[0].durationMs
        case None => None
        case Some(ms) => Some(ms / MsPerMinute)
      else None
  }

  /** A route shorter than a minute counts as zero minutes, and whole
      minutes are kept exactly. */
  lemma RouteMinutesExamples()
    ensures RouteMinutes(DirectionsBody(Some(0), Some(Route([Leg(Some(59999))])))) == Some(0)
    ensures RouteMinutes(DirectionsBody(Some(0), Some(Route([Leg(Some(1800000))])))) == Some(30)
    ensures RouteMinutes(DirectionsBody(Some(1), Some(Route([Leg(Some(1800000))])))) == None
  {
  }

  class NaverMapsClient {
    const clientId: string
    const clientSecret: string
    /** The geocoding service, by query address. */
    const geocodeService: string -> GeocodeReply
    /** The directions service, by start and goal coordinates. */
    const directionsService: (Coord, Coord) -> DirectionsReply

    /** The memo of `geocode`, by address. */
    var geocodeCache: map<string, Option<Coord>>
    /** The memo of `get_travel_time`, by (start, end) address. */
    var travelCache: map<(string, string), Option<int>>
    /** The addresses sent to the geocoding service, in order. */
    ghost var geocodeRequests: seq<string>
    /** The address pairs whose coordinates were sent to the directions
        service, in order. */
    ghost var directionsRequests: seq<(string, string)>

    /** Where `address` is, per the service. */
    function GeocodeOf(address: string): Option<Coord> {
      GeocodeResult(geocodeService(address))
    }

    /** The driving time from `start` to `end` in minutes, per the services;
        absent as soon as either address cannot be geocoded. */
    function TravelTime(start: string, end: string): (r: Option<int>)
      ensures GeocodeOf(start).None? || GeocodeOf(end).None? ==> r.None?
      ensures GeocodeOf(start).Some? && GeocodeOf(end).Some? ==>
        r == RouteMinutes(directionsService(GeocodeOf(start).value, GeocodeOf(end).value))
    {
      match (GeocodeOf(start), GeocodeOf(end))
      case (Some(s), Some(e)) => RouteMinutes(directionsService(s, e))
      case _ => None
    }

    /** Every memo entry is what the services give for its key. */
    ghost predicate Valid()
      reads this
    {
      && (forall a :: a in geocodeCache ==> geocodeCache[a] == GeocodeOf(a))
      && (forall k :: k in travelCache ==> travelCache[k] == TravelTime(k.0, k.1))
    }

    constructor (clientId: string, clientSecret: string,
                 geocodeService: string -> GeocodeReply,
                 directionsService: (Coord, Coord) -> DirectionsReply)
      requires clientId != "" && clientSecret != ""
      ensures Valid()
      ensures this.clientId == clientId && this.clientSecret == clientSecret
      ensures this.geocodeService == geocodeService && this.directionsService == directionsService
      ensures geocodeCache == map[] && travelCache == map[]
      ensures geocodeRequests == [] && directionsRequests == []
    {
      this.clientId := clientId;
      this.clientSecret := clientSecret;
      this.geocodeService := geocodeService;
      this.directionsService := directionsService;
      geocodeCache := map[];
      travelCache := map[];
      geocodeRequests := [];
      directionsRequests := [];
    }

    /** `geocode(address)`: answers from the memo when it can, otherwise
        asks the service once and remembers the answer, failure included. */
    method Geocode(address: string) returns (r: Option<Coord>)
      requires Valid()
      modifies this
      ensures Valid()
      ensures r == GeocodeOf(address)
      ensures geocodeCache == old(geocodeCache)[address := r]
      ensures travelCache == old(travelCache)
      ensures geocodeRequests == old(geocodeRequests) + (if address in old(geocodeCache) then [] else [address])
      ensures directionsRequests == old(directionsRequests)
    {
      if address in geocodeCache {
        r := geocodeCache[address];
      } else {
        geocodeRequests := geocodeRequests + [address];
        r := GeocodeResult(geocodeService(address));
        geocodeCache := geocodeCache[address := r];
      }
    }

    /** `get_travel_time(start, end)`: a memo hit asks nothing; otherwise
        both addresses are geocoded, and the directions service is asked
        only when both have coordinates. */
    method GetTravelTime(start: string, end: string) returns (r: Option<int>)
      requires Valid()
      modifies this
      ensures Valid()
      ensures r == TravelTime(start, end)
      ensures travelCache == old(travelCache)[(start, end) := r]
      ensures (start, end) in old(travelCache) ==>
        && geocodeCache == old(geocodeCache)
        && geocodeRequests == old(geocodeRequests)
        && directionsRequests == old(directionsRequests)
      ensures (start, end) !in old(travelCache) ==>
        && geocodeCache == old(geocodeCache)[start := GeocodeOf(start)][end := GeocodeOf(end)]
        && geocodeRequests == old(geocodeRequests)
             + (if start in old(geocodeCache) then [] else [start])
             + (if end in old(geocodeCache) || end == start then [] else [end])
        && directionsRequests == old(directionsRequests)
             + (if GeocodeOf(start).Some? && GeocodeOf(end).Some? then [(start, end)] else [])
    {
      if (start, end) in travelCache {
        r := travelCache[(start, end)];
        return;
      }
      var startCoords := Geocode(start);
      var endCoords := Geocode(end);
      if startCoords.None? || endCoords.None? {
        r := None;
      } else {
        directionsRequests := directionsRequests + [(start, end)];
        r := RouteMinutes(directionsService(startCoords.value, endCoords.value));
      }
      travelCache := travelCache[(start, end) := r];
    }

    /** `get_travel_time_matrix(addresses)`: a minute count for every
        ordered pair of the listed addresses; 0 from an address to itself,
        otherwise the driving time, or 30 when it cannot be found.  A
        repeated address is asked about itself, but its last write comes
        from the diagonal, so it still maps to 0. */
    method GetTravelTimeMatrix(addresses: seq<string>) returns (matrix: map<(string, string), int>)
      requires Valid()
      modifies this
      ensures Valid()
      ensures forall a, b :: (a, b) in matrix <==> a in addresses && b in addresses
      ensures forall a :: a in addresses ==> matrix[(a, a)] == 0
      ensures forall a, b :: a in addresses && b in addresses && a != b ==>
        matrix[(a, b)] == TravelTime(a, b).GetOr(FallbackMinutes)
      ensures forall a, b :: a in addresses && b in addresses && a != b ==> (a, b) in travelCache
      ensures old(travelCache).Keys <= travelCache.Keys && old(geocodeCache).Keys <= geocodeCache.Keys
      ensures old(directionsRequests) <= directionsRequests
      ensures forall k :: |old(directionsRequests)| <= k < |directionsRequests| ==>
        IsOffDiagonal(addresses, directionsRequests[k]) && directionsRequests[k] !in old(travelCache)
      ensures old(geocodeRequests) <= geocodeRequests
      ensures forall k :: |old(geocodeRequests)| <= k < |geocodeRequests| ==> geocodeRequests[k] in addresses
    {
      matrix := map[];
      for i := 0 to |addresses|
        invariant Valid()
        invariant matrix == Written(addresses, i, 0)
        invariant Cached(addresses, travelCache, i, 0)
        invariant old(travelCache).Keys <= travelCache.Keys && old(geocodeCache).Keys <= geocodeCache.Keys
        invariant RequestsFrom(addresses, old(travelCache), old(directionsRequests), directionsRequests)
        invariant GeocodesFrom(addresses, old(geocodeRequests), geocodeRequests)
      {
        ghost var (cache, requests, geocodes) := (travelCache, directionsRequests, geocodeRequests);
        matrix := FillRow(addresses, matrix, i);
        RequestsChain(addresses, old(travelCache), cache, old(directionsRequests), requests, directionsRequests);
        GeocodesChain(addresses, old(geocodeRequests), geocodes, geocodeRequests);
      }
      WrittenMatrix(addresses);
      CachedAll(addresses, travelCache);
    }

    /** The inner loop: row `i` of the matrix, one cell after another. */
    method FillRow(addresses: seq<string>, matrix0: map<(string, string), int>, i: int)
      returns (matrix: map<(string, string), int>)
      requires Valid() && 0 <= i < |addresses|
      requires matrix0 == Written(addresses, i, 0)
      requires Cached(addresses, travelCache, i, 0)
      modifies this
      ensures Valid()
      ensures matrix == Written(addresses, i + 1, 0)
      ensures Cached(addresses, travelCache, i + 1, 0)
      ensures old(travelCache).Keys <= travelCache.Keys && old(geocodeCache).Keys <= geocodeCache.Keys
      ensures RequestsFrom(addresses, old(travelCache), old(directionsRequests), directionsRequests)
      ensures GeocodesFrom(addresses, old(geocodeRequests), geocodeRequests)
    {
      matrix := matrix0;
      for j := 0 to |addresses|
        invariant Valid()
        invariant matrix == Written(addresses, i, j)
        invariant Cached(addresses, travelCache, i, j)
        invariant old(travelCache).Keys <= travelCache.Keys && old(geocodeCache).Keys <= geocodeCache.Keys
        invariant RequestsFrom(addresses, old(travelCache), old(directionsRequests), directionsRequests)
        invariant GeocodesFrom(addresses, old(geocodeRequests), geocodeRequests)
      {
        ghost var (cache, requests, geocodes) := (travelCache, directionsRequests, geocodeRequests);
        matrix := FillCell(addresses, matrix, i, j);
        CellRequests(addresses, cache, requests, directionsRequests, i, j);
        RequestsChain(addresses, old(travelCache), cache, old(directionsRequests), requests, directionsRequests);
        GeocodesChain(addresses, old(geocodeRequests), geocodes, geocodeRequests);
      }
      CachedNextRow(addresses, travelCache, i);
    }

    /** The body of the inner loop: cell `(i, j)` gets its value, looking
        the travel time up off the diagonal. */
    method FillCell(addresses: seq<string>, matrix0: map<(string, string), int>, i: int, j: int)
      returns (matrix: map<(string, string), int>)
      requires Valid() && 0 <= i < |addresses| && 0 <= j < |addresses|
      requires matrix0 == Written(addresses, i, j)
      requires Cached(addresses, travelCache, i, j)
      modifies this
      ensures Valid()
      ensures matrix == Written(addresses, i, j + 1)
      ensures Cached(addresses, travelCache, i, j + 1)
      ensures i == j ==>
        && travelCache == old(travelCache) && geocodeCache == old(geocodeCache)
        && geocodeRequests == old(geocodeRequests) && directionsRequests == old(directionsRequests)
      ensures old(travelCache).Keys <= travelCache.Keys && old(geocodeCache).Keys <= geocodeCache.Keys
      ensures directionsRequests == old(directionsRequests)
        + (if i != j && (addresses[i], addresses[j]) !in old(travelCache)
              && GeocodeOf(addresses[i]).Some? && GeocodeOf(addresses[j]).Some?
           then [(addresses[i], addresses[j])] else [])
      ensures GeocodesFrom(addresses, old(geocodeRequests), geocodeRequests)
    {
      ghost var before := travelCache;
      if i == j {
        matrix := matrix0[(addresses[i], addresses[j]) := 0];
      } else {
        var travelTime := GetTravelTime(addresses[i], addresses[j]);
        if travelTime.Some? {
          matrix := matrix0[(addresses[i], addresses[j]) := travelTime.value];
        } else {
          matrix := matrix0[(addresses[i], addresses[j]) := FallbackMinutes];
        }
      }
      CachedStep(addresses, before, travelCache, i, j);
    }

    /** `p` is the pair of addresses at two different positions of the list. */
    ghost predicate IsOffDiagonal(addresses: seq<string>, p: (string, string)) {
      exists x, y :: 0 <= x < |addresses| && 0 <= y < |addresses| && x != y && p == (addresses[x], addresses[y])
    }

    /** `requests` extends `before` by off-diagonal pairs that were not in
        the memo `cache`. */
    ghost predicate RequestsFrom(addresses: seq<string>, cache: map<(string, string), Option<int>>,
                                 before: seq<(string, string)>, requests: seq<(string, string)>) {
      && before <= requests
      && forall k :: |before| <= k < |requests| ==> IsOffDiagonal(addresses, requests[k]) && requests[k] !in cache
    }

    /** `requests` extends `before` by listed addresses. */
    ghost predicate GeocodesFrom(addresses: seq<string>, before: seq<string>, requests: seq<string>) {
      before <= requests && forall k :: |before| <= k < |requests| ==> requests[k] in addresses
    }

    /** One cell sends at most the request for its own off-diagonal pair. */
    lemma CellRequests(addresses: seq<string>, cache: map<(string, string), Option<int>>,
                       before: seq<(string, string)>, requests: seq<(string, string)>, i: int, j: int)
      requires 0 <= i < |addresses| && 0 <= j < |addresses|
      requires requests == before + (if i != j && (addresses[i], addresses[j]) !in cache
                                        && GeocodeOf(addresses[i]).Some? && GeocodeOf(addresses[j]).Some?
                                     then [(addresses[i], addresses[j])] else [])
      ensures RequestsFrom(addresses, cache, before, requests)
    {
      if |requests| > |before| {
        assert requests[|before|] == (addresses[i], addresses[j]);
        assert IsOffDiagonal(addresses, requests[|before|]);
      }
    }

    /** Two steps of requests, the memo only growing between them, are one. */
    lemma RequestsChain(addresses: seq<string>, cache0: map<(string, string), Option<int>>,
                        cache1: map<(string, string), Option<int>>,
                        r0: seq<(string, string)>, r1: seq<(string, string)>, r2: seq<(string, string)>)
      requires cache0.Keys <= cache1.Keys
      requires RequestsFrom(addresses, cache0, r0, r1) && RequestsFrom(addresses, cache1, r1, r2)
      ensures RequestsFrom(addresses, cache0, r0, r2)
    {
      forall k | |r0| <= k < |r2| ensures IsOffDiagonal(addresses, r2[k]) && r2[k] !in cache0 {
        if k < |r1| {
          assert r2[k] == r1[k];
        }
      }
    }

    lemma GeocodesChain(addresses: seq<string>, r0: seq<string>, r1: seq<string>, r2: seq<string>)
      requires GeocodesFrom(addresses, r0, r1) && GeocodesFrom(addresses, r1, r2)
      ensures GeocodesFrom(addresses, r0, r2)
    {
      forall k | |r0| <= k < |r2| ensures r2[k] in addresses {
        if k < |r1| {
          assert r2[k] == r1[k];
        }
      }
    }

    /** The value the nested loops write at index pair `(x, y)`. */
    function CellValue(addresses: seq<string>, x: int, y: int): int
      requires 0 <= x < |addresses| && 0 <= y < |addresses|
    {
      if x == y then 0 else TravelTime(addresses[x], addresses[y]).GetOr(FallbackMinutes)
    }

    /** The matrix once the rows before `i` and the first `j` cells of row
        `i` are written, one dictionary assignment per cell, in loop order. */
    ghost function Written(addresses: seq<string>, i: int, j: int): map<(string, string), int>
      requires 0 <= i <= |addresses| && 0 <= j <= |addresses| && (j > 0 ==> i < |addresses|)
      decreases i, j
    {
      if j > 0 then Written(addresses, i, j - 1)[(addresses[i], addresses[j - 1]) := CellValue(addresses, i, j - 1)]
      else if i > 0 then Written(addresses, i - 1, |addresses|)
      else map[]
    }

    /** Index pair `(x, y)` comes before `(i, j)` in the order of the loops. */
    predicate Before(x: int, y: int, i: int, j: int) {
      x < i || (x == i && y < j)
    }

    /** Every off-diagonal index pair before `(i, j)` is in the memo. */
    ghost predicate Cached(addresses: seq<string>, cache: map<(string, string), Option<int>>, i: int, j: int) {
      forall x, y :: 0 <= x < |addresses| && 0 <= y < |addresses| && x != y && Before(x, y, i, j) ==>
        (addresses[x], addresses[y]) in cache
    }

    lemma CachedStep(addresses: seq<string>, before: map<(string, string), Option<int>>,
                     cache: map<(string, string), Option<int>>, i: int, j: int)
      requires 0 <= i < |addresses| && 0 <= j < |addresses|
      requires Cached(addresses, before, i, j)
      requires forall k :: k in before ==> k in cache
      requires i != j ==> (addresses[i], addresses[j]) in cache
      ensures Cached(addresses, cache, i, j + 1)
    {
      forall x, y | 0 <= x < |addresses| && 0 <= y < |addresses| && x != y && Before(x, y, i, j + 1)
        ensures (addresses[x], addresses[y]) in cache
      {
        if (x, y) != (i, j) {
          assert Before(x, y, i, j);
        }
      }
    }

    /** The end of row `i` is the start of row `i + 1`. */
    lemma CachedNextRow(addresses: seq<string>, cache: map<(string, string), Option<int>>, i: int)
      requires Cached(addresses, cache, i, |addresses|)
      ensures Cached(addresses, cache, i + 1, 0)
    {
      forall x, y | 0 <= x < |addresses| && 0 <= y < |addresses| && x != y && Before(x, y, i + 1, 0)
        ensures Before(x, y, i, |addresses|)
      {
      }
    }

    /** Once every row is done, every off-diagonal pair of listed addresses
        is in the memo. */
    lemma CachedAll(addresses: seq<string>, cache: map<(string, string), Option<int>>)
      requires Cached(addresses, cache, |addresses|, 0)
      ensures forall a, b :: a in addresses && b in addresses && a != b ==> (a, b) in cache
    {
      forall a, b | a in addresses && b in addresses && a != b ensures (a, b) in cache {
        var x :| 0 <= x < |addresses| && addresses[x] == a;
        var y :| 0 <= y < |addresses| && addresses[y] == b;
        assert Before(x, y, |addresses|, 0);
      }
    }

    /** Only listed addresses are written. */
    lemma {:induction false} WrittenKeys(addresses: seq<string>, i: int, j: int)
      requires 0 <= i <= |addresses| && 0 <= j <= |addresses| && (j > 0 ==> i < |addresses|)
      ensures forall k :: k in Written(addresses, i, j) ==> k.0 in addresses && k.1 in addresses
      decreases i, j
    {
      if j > 0 {
        WrittenKeys(addresses, i, j - 1);
      } else if i > 0 {
        WrittenKeys(addresses, i - 1, |addresses|);
      }
    }

    /** Every index pair before `(i, j)` has been written. */
    lemma {:induction false} WrittenCovers(addresses: seq<string>, i: int, j: int)
      requires 0 <= i <= |addresses| && 0 <= j <= |addresses| && (j > 0 ==> i < |addresses|)
      ensures forall x, y :: 0 <= x < |addresses| && 0 <= y < |addresses| && Before(x, y, i, j) ==>
        (addresses[x], addresses[y]) in Written(addresses, i, j)
      decreases i, j
    {
      if j > 0 {
        WrittenCovers(addresses, i, j - 1);
        forall x, y | 0 <= x < |addresses| && 0 <= y < |addresses| && Before(x, y, i, j)
          ensures (addresses[x], addresses[y]) in Written(addresses, i, j)
        {
          if (x, y) != (i, j - 1) {
            assert Before(x, y, i, j - 1);
          }
        }
      } else if i > 0 {
        WrittenCovers(addresses, i - 1, |addresses|);
        forall x, y | 0 <= x < |addresses| && 0 <= y < |addresses| && Before(x, y, i, j)
          ensures Before(x, y, i - 1, |addresses|)
        {
        }
      }
    }

    /** An entry for two different addresses holds their travel time or
        the fallback. */
    lemma {:induction false} WrittenValues(addresses: seq<string>, i: int, j: int)
      requires 0 <= i <= |addresses| && 0 <= j <= |addresses| && (j > 0 ==> i < |addresses|)
      ensures forall k :: k in Written(addresses, i, j) && k.0 != k.1 ==>
        Written(addresses, i, j)[k] == TravelTime(k.0, k.1).GetOr(FallbackMinutes)
      decreases i, j
    {
      if j > 0 {
        WrittenValues(addresses, i, j - 1);
      } else if i > 0 {
        WrittenValues(addresses, i - 1, |addresses|);
      }
    }

    /** An address whose last diagonal cell is written maps to 0. */
    lemma {:induction false} WrittenDiagonal(addresses: seq<string>, i: int, j: int)
      requires 0 <= i <= |addresses| && 0 <= j <= |addresses| && (j > 0 ==> i < |addresses|)
      ensures forall a :: (a, a) in Written(addresses, i, j) && DiagonalDone(addresses, a, i, j) ==>
        Written(addresses, i, j)[(a, a)] == 0
      decreases i, j
    {
      var w := Written(addresses, i, j);
      if j > 0 {
        WrittenDiagonal(addresses, i, j - 1);
        forall a | (a, a) in w && DiagonalDone(addresses, a, i, j) ensures w[(a, a)] == 0 {
          DiagonalStep(addresses, a, i, j - 1);
        }
      } else if i > 0 {
        WrittenDiagonal(addresses, i - 1, |addresses|);
        forall a | DiagonalDone(addresses, a, i, 0) ensures DiagonalDone(addresses, a, i - 1, |addresses|) {
          if addresses[i - 1] != a {
            assert forall y :: i - 1 <= y < |addresses| ==> addresses[y] != a;
          }
        }
      }
    }

    /** The finished matrix: exactly the ordered pairs of listed addresses,
        0 on the diagonal, the travel time or the fallback elsewhere. */
    lemma WrittenMatrix(addresses: seq<string>)
      ensures var m := Written(addresses, |addresses|, 0);
        && (forall a, b :: (a, b) in m <==> a in addresses && b in addresses)
        && (forall a :: a in addresses ==> m[(a, a)] == 0)
        && (forall a, b :: a in addresses && b in addresses && a != b ==>
              m[(a, b)] == TravelTime(a, b).GetOr(FallbackMinutes))
    {
      var n := |addresses|;
      var m := Written(addresses, n, 0);
      WrittenKeys(addresses, n, 0);
      WrittenCovers(addresses, n, 0);
      WrittenValues(addresses, n, 0);
      WrittenDiagonal(addresses, n, 0);
      forall a, b | a in addresses && b in addresses ensures (a, b) in m {
        var x :| 0 <= x < n && addresses[x] == a;
        var y :| 0 <= y < n && addresses[y] == b;
        assert Before(x, y, n, 0);
      }
      forall a | a in addresses ensures m[(a, a)] == 0 {
        assert DiagonalDone(addresses, a, n, 0);
      }
    }

    /** No occurrence of `a` remains to be written on the diagonal once the
        pairs before `(i, j)` are done. */
    ghost predicate DiagonalDone(addresses: seq<string>, a: string, i: int, j: int) {
      || (forall y :: 0 <= i <= y < |addresses| ==> addresses[y] != a)
      || (0 <= i < j && i < |addresses| && addresses[i] == a && forall y :: i < y < |addresses| ==> addresses[y] != a)
    }

    /** Cell `(i, j)` is the last diagonal write of `c`, or an earlier one
        was and this cell does not hold `(c, c)`. */
    lemma DiagonalStep(addresses: seq<string>, c: string, i: int, j: int)
      requires 0 <= i < |addresses| && 0 <= j < |addresses|
      requires DiagonalDone(addresses, c, i, j + 1)
      ensures || (i == j && addresses[i] == c)
              || (DiagonalDone(addresses, c, i, j) && (addresses[i] != c || addresses[j] != c || i == j))
    {
    }
  }

  /** Creating a client fails exactly when a credential is empty. */
  method NewClient(clientId: string, clientSecret: string,
                   geocodeService: string -> GeocodeReply,
                   directionsService: (Coord, Coord) -> DirectionsReply)
    returns (r: Result<NaverMapsClient, string>)
    ensures r.Failure? <==> clientId == "" || clientSecret == ""
    ensures r.Failure? ==> r.error == CredentialsError
    ensures r.Success? ==>
      && fresh(r.value) && r.value.Valid()
      && r.value.geocodeService == geocodeService && r.value.directionsService == directionsService
      && r.value.geocodeCache == map[] && r.value.travelCache == map[]
  {
    if clientId == "" || clientSecret == "" {
      return Failure(CredentialsError);
    }
    var client := new NaverMapsClient(clientId, clientSecret, geocodeService, directionsService);
    r := Success(client);
  }
}
