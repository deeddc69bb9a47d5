/**
 The flight tool of the flight chatbot, `get_flight_info`: the query names a
 departure and an arrival airport separated by one comma, and the flights the
 status service reports are listed one numbered line each under a header. The
 service's answer and the formatted date are parameters.
 */
module FlightInfo {
  import opened Wrappers
  import opened Text

  const QueryError: string :=
    "Error: Please provide both departure and arrival airport codes separated by a comma (e.g., 'DOH,DXB')."

  datatype Route = Route(departure: string, arrival: string)

  /** A flight as the status service reports it; each field is shown as it is. */
  datatype Flight = Flight(flightNumber: string, departureScheduled: string,
                           arrivalScheduled: string, status: string)

  /** The airport code as used in the request: trimmed and upper-cased. */
  function Code(s: string): string {
    Upper(Strip(s))
  }

  /** `departure, arrival = query.split(',')`: exactly one comma is accepted, anything
      else is answered with the fixed error text. */
  function ParseQuery(query: string): (r: Result<Route>)
    ensures r.Ok? <==> Count(query, ',') == 1
    ensures r.Err? ==> r.message == QueryError
  {
    var parts := Split(query, ',');
    if |parts| == 2 then Ok(Route(Code(parts[0]), Code(parts[1]))) else Err(QueryError)
  }

  /** A query made of two comma-free parts around one comma is accepted, each part
      trimmed and upper-cased. */
  lemma ParseQueryAccepts(a: string, b: string)
    requires ',' !in a && ',' !in b
    ensures ParseQuery(a + "," + b) == Ok(Route(Code(a), Code(b)))
  {
    SplitAtFirst(a, b, ',');
    SplitNoSeparator(b, ',');
  }

  /** Every accepted query is of that shape: the route is read from the text before
      and after its only comma. */
  lemma ParseQueryShape(query: string)
    requires ParseQuery(query).Ok?
    ensures exists a, b ::
      && ',' !in a && ',' !in b && query == a + "," + b
      && ParseQuery(query).value == Route(Code(a), Code(b))
  {
    var parts := Split(query, ',');
    JoinSplit(query, ',');
    assert query == parts[0] + "," + parts[1];
  }

  function HeaderLine(route: Route, date: string): string {
    "Flights from " + route.departure + " to " + route.arrival + " on " + date + ":"
  }

  /** The line for the flight numbered `n`, without its newline. */
  function RecordLine(n: nat, f: Flight): string {
    NatToString(n) + ". Flight: QR" + f.flightNumber + ", Departure Time: " + f.departureScheduled
      + ", Arrival Time: " + f.arrivalScheduled + ", Status: " + f.status
  }

  /** The loop over the flights with `counter` starting at `n`. */
  function Records(flights: seq<Flight>, n: nat): string
    decreases |flights|
  {
    if flights == [] then "" else RecordLine(n, flights[0]) + "\n" + Records(flights[1..], n + 1)
  }

  /** The listing for a route, a formatted date and the reported flights. */
  function Listing(route: Route, date: string, flights: seq<Flight>): string {
    HeaderLine(route, date) + "\n" + Records(flights, 1)
  }

  /** `get_flight_info`: the error text for a malformed query, the listing otherwise. */
  function FlightInfo(query: string, date: string, flights: seq<Flight>): (r: string)
    ensures Count(query, ',') != 1 ==> r == QueryError
  {
    match ParseQuery(query)
    case Err(message) => message
    case Ok(route) => Listing(route, date, flights)
  }

  /** The lines the listing should have: flight `i` is numbered `i + 1`. */
  function ExpectedLines(flights: seq<Flight>): seq<string> {
    seq(|flights|, i requires 0 <= i < |flights| => RecordLine(i + 1, flights[i]))
  }

  predicate NoNewline(s: string) {
    '\n' !in s
  }

  predicate PlainFlight(f: Flight) {
    NoNewline(f.flightNumber) && NoNewline(f.departureScheduled)
    && NoNewline(f.arrivalScheduled) && NoNewline(f.status)
  }

  lemma RecordLineNoNewline(n: nat, f: Flight)
    requires PlainFlight(f)
    ensures NoNewline(RecordLine(n, f))
  {
    var digits := NatToString(n);
    assert '\n' !in digits;
  }

  /** The lines the loop writes from `counter` value `n` on. */
  function LinesFrom(flights: seq<Flight>, n: nat): (r: seq<string>)
    ensures |r| == |flights|
    decreases |flights|
  {
    if flights == [] then [] else [RecordLine(n, flights[0])] + LinesFrom(flights[1..], n + 1)
  }

  lemma {:induction false} LinesFromIndexed(flights: seq<Flight>, n: nat)
    ensures forall i :: 0 <= i < |flights| ==> LinesFrom(flights, n)[i] == RecordLine(n + i, flights[i])
    decreases |flights|
  {
    if flights != [] {
      LinesFromIndexed(flights[1..], n + 1);
    }
  }

  lemma SplitLine(line: string, rest: string, restLines: seq<string>)
    requires '\n' !in line
    requires Split(rest, '\n') == restLines
    ensures Split(line + "\n" + rest, '\n') == [line] + restLines
  {
    SplitAtFirst(line, rest, '\n');
  }

  lemma {:induction false} RecordsLines(flights: seq<Flight>, n: nat)
    requires forall i :: 0 <= i < |flights| ==> PlainFlight(flights[i])
    ensures Split(Records(flights, n), '\n') == LinesFrom(flights, n) + [""]
    decreases |flights|
  {
    if flights != [] {
      var line := RecordLine(n, flights[0]);
      RecordLineNoNewline(n, flights[0]);
      var rest := Records(flights[1..], n + 1);
      RecordsLines(flights[1..], n + 1);
      SplitLine(line, rest, LinesFrom(flights[1..], n + 1) + [""]);
      AppendAssociative([line], LinesFrom(flights[1..], n + 1), [""]);
    }
  }

  /** Lines, each followed by a newline. */
  function Terminated(lines: seq<string>): string {
    if lines == [] then "" else lines[0] + "\n" + Terminated(lines[1..])
  }

  /** The record loop writes each line of `LinesFrom`, each with its newline. */
  lemma {:induction false} RecordsTerminated(flights: seq<Flight>, n: nat)
    ensures Records(flights, n) == Terminated(LinesFrom(flights, n))
    decreases |flights|
  {
    if flights != [] {
      RecordsTerminated(flights[1..], n + 1);
      var lines := LinesFrom(flights, n);
      assert lines[0] == RecordLine(n, flights[0]);
      assert lines[1..] == LinesFrom(flights[1..], n + 1);
    }
  }

  /** For every route, date and flights, whatever the fields hold: the listing is
      the header, then flight `i` as line `i + 1` in the reported order, each line
      ending in a newline. */
  lemma ListingText(route: Route, date: string, flights: seq<Flight>)
    ensures Listing(route, date, flights) == HeaderLine(route, date) + "\n" + Terminated(ExpectedLines(flights))
  {
    RecordsTerminated(flights, 1);
    LinesFromExpected(flights);
  }

  /** Read back line by line, the listing is the header, then one line per flight
      numbered 1, 2, ... in the reported order, then the empty text after the final
      newline (when no shown field holds a newline). */
  lemma ListingLines(route: Route, date: string, flights: seq<Flight>)
    requires NoNewline(HeaderLine(route, date))
    requires forall i :: 0 <= i < |flights| ==> PlainFlight(flights[i])
    ensures Split(Listing(route, date, flights), '\n')
      == [HeaderLine(route, date)] + ExpectedLines(flights) + [""]
  {
    HeaderThenRecords(HeaderLine(route, date), flights);
  }

  lemma HeaderThenRecords(header: string, flights: seq<Flight>)
    requires NoNewline(header)
    requires forall i :: 0 <= i < |flights| ==> PlainFlight(flights[i])
    ensures Split(header + "\n" + Records(flights, 1), '\n') == [header] + ExpectedLines(flights) + [""]
  {
    RecordsLines(flights, 1);
    SplitLine(header, Records(flights, 1), LinesFrom(flights, 1) + [""]);
    LinesFromExpected(flights);
    AppendAssociative([header], ExpectedLines(flights), [""]);
  }

  lemma LinesFromExpected(flights: seq<Flight>)
    ensures LinesFrom(flights, 1) == ExpectedLines(flights)
  {
    LinesFromIndexed(flights, 1);
  }
}
