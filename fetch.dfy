/**
 The pre-network decision of the weather.gov backend's `Fetch`, and the order
 of the stages `Fetch` goes through.

 `Fetch` first checks the location string (a failure ends the process through
 `log.Fatalf`), then scans two floats out of it with `fmt.Sscanf("%f,%f")`
 (fewer than two values, or a scan error, returns an empty `iface.Data`), and
 only then contacts the network: one request for the grid cell, one for the
 forecast (either failing ends the process). When the forecast body does
 decode, the type assertion `parsed["properties"].([]nwsResponse)` panics: a
 value decoded into `interface{}` is never a `[]nwsResponse`. So `Fetch` never
 gets to set `GeoLoc`: whatever it returns is the empty `iface.Data`.

 The float scan and the two network requests are not modelled: their results
 are parameters. Floating-point values are of an opaque type `F`.
 */
module WeatherGov {
  import opened LocationSyntax

  /** Outcome of the check at the top of `Fetch`. */
  datatype Decision = BadLocation(location: string) | EmptyData | Proceed

  /**
   What `fmt.Sscanf(location, "%f,%f", &lat, &lon)` reported. `lat` and `lon`
   only feed the grid request, whose URL is not modelled.
   */
  datatype Scan<F> = Scan(count: int, failed: bool, lat: F, lon: F)

  datatype LatLon<F> = LatLon(latitude: F, longitude: F)

  /** The part of `iface.Data` this backend would fill: only `GeoLoc`; every other field stays zero. */
  datatype Data<F> = Data(geoLoc: Option<LatLon<F>>)

  datatype Option<T> = None | Some(value: T)

  /** The three `log.Fatalf` calls of `Fetch`, as values instead of process exits. */
  datatype Fatal = UnsupportedLocation(location: string) | GridUnavailable(location: string) | ForecastUnavailable

  /**
   `Exit` is a `log.Fatalf`, `Panicked` the failed type assertion in
   `fetchForecast`, `Returned` a normal return.
   */
  datatype Outcome<F> = Exit(reason: Fatal) | Panicked | Returned(data: Data<F>)

  /** The observable steps of one `Fetch`, in the order they happen. */
  datatype Stage = CheckLocation | ScanFloats | RequestGrid | RequestForecast

  datatype Trace<F> = Trace(outcome: Outcome<F>, stages: seq<Stage>)

  /**
   The three-way decision. A location the pattern rejects is fatal whatever the
   scan would report; an accepted one whose scan did not give two values (or
   failed) yields empty data; only an accepted location with a two-value scan
   goes on to the network.
   */
  function Decide(location: string, scanCount: int, scanFailed: bool): (d: Decision)
    ensures d.BadLocation? <==> !LocationGrammar(location)
    ensures d.BadLocation? ==> d.location == location
    ensures d == EmptyData <==> LocationGrammar(location) && (scanCount != 2 || scanFailed)
    ensures d == Proceed <==> LocationGrammar(location) && scanCount == 2 && !scanFailed
  {
    LocationLanguage(location);
    if !ValidLocation(location) then BadLocation(location)
    else if scanCount != 2 || scanFailed then EmptyData
    else Proceed
  }

  /**
   One call of `Fetch(location, numdays)`. `gridOk` stands for `fetchGrid`
   returning without error; `forecastDecoded` for the forecast request, status
   check, body read and JSON decoding all succeeding in `fetchForecast`, after
   which its type assertion panics. `numdays` is not read by the source.
   */
  function Fetch<F>(location: string, numdays: int, scan: Scan<F>, gridOk: bool, forecastDecoded: bool): (r: Trace<F>)
    ensures r.outcome == Exit(UnsupportedLocation(location)) <==> !LocationGrammar(location)
    ensures r.outcome == Returned(Data(None)) <==> LocationGrammar(location) && (scan.count != 2 || scan.failed)
    // `GeoLoc` is never set: every normal return is the empty `iface.Data`
    ensures r.outcome.Returned? ==> r.outcome.data.geoLoc.None?
    ensures r.outcome == Panicked <==>
              Decide(location, scan.count, scan.failed) == Proceed && gridOk && forecastDecoded
    ensures r.outcome == Exit(GridUnavailable(location)) <==>
              Decide(location, scan.count, scan.failed) == Proceed && !gridOk
    ensures r.outcome == Exit(ForecastUnavailable) <==>
              Decide(location, scan.count, scan.failed) == Proceed && gridOk && !forecastDecoded
    // the check always runs first; the scan only after an accepted check;
    // the network only after a two-value scan, and the forecast only after the grid
    ensures 1 <= |r.stages| <= 4 && r.stages[0] == CheckLocation
    ensures ScanFloats in r.stages <==> LocationGrammar(location)
    ensures RequestGrid in r.stages <==> Decide(location, scan.count, scan.failed) == Proceed
    ensures RequestForecast in r.stages <==> Decide(location, scan.count, scan.failed) == Proceed && gridOk
    ensures r.stages == [CheckLocation, ScanFloats, RequestGrid, RequestForecast][..|r.stages|]
  {
    match Decide(location, scan.count, scan.failed)
    case BadLocation(_) => Trace(Exit(UnsupportedLocation(location)), [CheckLocation])
    case EmptyData => Trace(Returned(Data(None)), [CheckLocation, ScanFloats])
    case Proceed =>
      if !gridOk then
        Trace(Exit(GridUnavailable(location)), [CheckLocation, ScanFloats, RequestGrid])
      else if !forecastDecoded then
        Trace(Exit(ForecastUnavailable), [CheckLocation, ScanFloats, RequestGrid, RequestForecast])
      else
        Trace(Panicked, [CheckLocation, ScanFloats, RequestGrid, RequestForecast])
  }

  /**
   The one fact the model assumes about `fmt.Sscanf`: `%f` cannot read a
   number from an empty field or from a bare `-`, so when either side of the
   first comma is one of those, the scan reports fewer than two values or an
   error.
   */
  ghost predicate ScanRejectsEmptyOrSignField(location: string, scanCount: int, scanFailed: bool) {
    var k := CommaIndex(location);
    (k < |location| && (location[..k] in {"", "-"} || location[k + 1..] in {"", "-"}))
      ==> scanCount != 2 || scanFailed
  }

  /**
   An accepted location with a digit-free half — `","`, `"-,-"`, `".5,-"` —
   passes the check but can never reach the network. By `DigitFreeHalf` that
   half is empty or a bare `-`, which `%f` cannot read, so the location ends in
   empty data, not in the fatal error.
   */
  lemma DigitFreeHalfGivesEmptyData<F>(location: string, numdays: int, scan: Scan<F>, gridOk: bool, forecastDecoded: bool)
    requires ValidLocation(location)
    requires ScanRejectsEmptyOrSignField(location, scan.count, scan.failed)
    requires var k := CommaIndex(location); !HasDigit(location[..k]) || !HasDigit(location[k + 1..])
    ensures Fetch(location, numdays, scan, gridOk, forecastDecoded) == Trace(Returned(Data(None)), [CheckLocation, ScanFloats])
    ensures var k := CommaIndex(location); location[..k] in {"", "-"} || location[k + 1..] in {"", "-"}
  {
    LocationLanguage(location);
    var k := CommaIndex(location);
    if !HasDigit(location[..k]) {
      DigitFreeHalf(location[..k]);
    } else {
      DigitFreeHalf(location[k + 1..]);
    }
  }
}
