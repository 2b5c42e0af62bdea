/**
 Concrete locations the check of `Fetch` accepts and rejects, including the
 example its error message suggests and the quirks of the pattern: empty
 integer parts and even empty halves pass.
 */
module LocationExamples {
  import opened LocationSyntax
  import opened WeatherGov

  /** The suggestion in the fatal message, `40.748,-73.985` (New York), is accepted. */
  lemma SuggestedLocationAccepted()
    ensures ValidLocation("40.748,-73.985")
  {
    var s := "40.748,-73.985";
    FirstComma(s, 6);
    assert s[..6] == "40.748" && s[7..] == "-73.985";
    NewYorkHalves();
  }

  lemma NewYorkHalves()
    ensures ValidHalf("40.748") && ValidHalf("-73.985")
  {
    var lat, lon := "40.748", "-73.985";
    assert lat[1..] == "0.748" && lat[2..] == ".748" && lat[3..] == "748";
    assert Run(Start, lat) == Run(Point, "748") == FracPart;
    assert lon[1..] == "73.985" && lon[2..] == "3.985" && lon[3..] == ".985" && lon[4..] == "985";
    assert Run(Start, lon) == Run(Point, "985") == FracPart;
  }

  /** A place name is rejected: `N` is none of the allowed characters. */
  lemma PlaceNameRejected()
    ensures !ValidLocation("New York")
  {
  }

  /** Whitespace is rejected even after the comma. */
  lemma SpaceRejected()
    ensures !ValidLocation("40.7, -73.9")
  {
    var s := "40.7, -73.9";
    if ValidLocation(s) {
      Alphabet(s);
    }
  }

  /** A `-` inside the digits is rejected. */
  lemma InnerMinusRejected()
    ensures !ValidLocation("4-0,1")
  {
  }

  /** A `.` with no digit after it is rejected. */
  lemma TrailingPointRejected()
    ensures !ValidLocation("40.,-73")
  {
  }

  /** Empty integer parts are accepted. */
  lemma EmptyIntegerPartsAccepted()
    ensures ValidLocation(".5,-.5")
  {
  }

  /** Halves that are empty, or only a sign, are accepted too. */
  lemma EmptyHalvesAccepted()
    ensures ValidLocation(",") && ValidLocation("-,-")
  {
  }

  /** A place name ends `Fetch` with the unsupported-location error, before any scan or request. */
  lemma PlaceNameIsFatal<F>(numdays: int, scan: Scan<F>, gridOk: bool, forecastDecoded: bool)
    ensures Fetch("New York", numdays, scan, gridOk, forecastDecoded)
            == Trace(Exit(UnsupportedLocation("New York")), [CheckLocation])
  {
    PlaceNameRejected();
    LocationLanguage("New York");
  }

  /** `","` passes the check, and the scan that must fail on it turns it into empty data. */
  lemma BareCommaGivesEmptyData<F>(numdays: int, scan: Scan<F>, gridOk: bool, forecastDecoded: bool)
    requires ScanRejectsEmptyOrSignField(",", scan.count, scan.failed)
    ensures Fetch(",", numdays, scan, gridOk, forecastDecoded).outcome == Returned(Data(None))
  {
    EmptyHalvesAccepted();
    assert CommaIndex(",") == 0;
    assert ","[..0] == [];
    DigitFreeHalfGivesEmptyData(",", numdays, scan, gridOk, forecastDecoded);
  }
}
