# weather.gov backend of wego: the location gate

wego is a terminal weather client with pluggable backends. The weather.gov
backend (`backends/weather.gov.go`) takes a location string and a day count.
Before it contacts the National Weather Service API, its `Fetch` runs a gate:

1. The location must match the anchored pattern
   `^-?[0-9]*(\.[0-9]+)?,-?[0-9]*(\.[0-9]+)?$`. That is two coordinate halves
   joined by one comma. Each half is an optional `-`, zero or more ASCII digits
   and an optional fraction (`.` followed by at least one digit). A location
   that fails the pattern ends the process with an error message suggesting
   `40.748,-73.985`.
2. Two floats are scanned from the location with `%f,%f`. If the scan yields
   fewer than two values, or fails, `Fetch` returns an empty `iface.Data`.
3. Only then does it request the grid cell and the forecast. Either request
   failing ends the process. When the forecast body does decode, the type
   assertion `parsed["properties"].([]nwsResponse)` panics, because a value
   decoded into `interface{}` is never a `[]nwsResponse`. So `Fetch` never
   reaches the line that sets `GeoLoc`: every value it returns is the empty
   `iface.Data`.

The model has three modules:

- `LocationSyntax` (`location.dfy`) is the pattern in two forms. The first is
  an executable recogniser: a five-state automaton run over each half, with the
  halves found at the first comma. The second is a ghost grammar that states the
  decomposition with existentials. The two are proved to accept exactly the same
  strings. On top of that, the shape of accepted strings is proved character by
  character.
- `WeatherGov` (`fetch.dfy`) holds the three-way decision and the whole of
  `Fetch`. Its results are the fatal exits as values, the panic, the returned
  data, and the ordered list of stages reached. The float scan and the two HTTP
  requests are parameters.
- `LocationExamples` (`location_examples.dfy`) holds concrete accepted and
  rejected locations, including the quirks: `.5,-.5`, `,` and `-,-` all pass
  the pattern.

`nwsConfig` has no fields and `Setup` does nothing
(`backends/weather.gov.go:14-15`, `118-119`). So the gate has no state, and the
model writes it as functions of their inputs only. The same location and scan
result always give the same outcome.

`parseForecast` is a stub that returns nothing (`backends/weather.gov.go:88-90`)
and `Fetch` does not call it. A failed scan returns the empty `iface.Data`
(`:130-131`). A failed grid or forecast request calls `log.Fatalf` (`:136`,
`:141`).

## Model

| member | source | states |
|---|---|---|
| LocationSyntax.ValidLocation | backends/weather.gov.go:124 | the recogniser standing for `regexp.MatchString` on the pattern; its contract is `LocationSyntax.LocationLanguage` |
| LocationSyntax.ValidHalf | backends/weather.gov.go:124 | the automaton for one half `-?[0-9]*(\.[0-9]+)?`; its contract is `LocationSyntax.HalfLanguage` |
| LocationSyntax.CommaIndex | backends/weather.gov.go:124 | the split point of the recogniser: the index of the first `,`, or the length when there is none; no `,` comes before it |
| LocationSyntax.FracPartLanguage | backends/weather.gov.go:124 | after at least one fraction digit, the rest of a half is accepted exactly when it is all digits (`[0-9]+` continues) |
| LocationSyntax.PointLanguage | backends/weather.gov.go:124 | right after a `.`, the rest of a half is accepted exactly when it is one or more digits |
| LocationSyntax.IntPartLanguage | backends/weather.gov.go:124 | after the sign or an integer digit, the rest of a half is accepted exactly when it is `[0-9]*(\.[0-9]+)?`, stated as digits followed by an optional fraction |
| LocationSyntax.HalfLanguage | backends/weather.gov.go:124 | the automaton accepts a half exactly when it splits as optional `-`, digits, optional `.digits` (both directions) |
| LocationSyntax.LocationLanguage | backends/weather.gov.go:124 | the recogniser accepts a location exactly when some comma splits it into two grammar halves, i.e. exactly the strings the anchored pattern matches |
| LocationSyntax.HalfShape | backends/weather.gov.go:124 | in an accepted half only digits, `.` and `-` occur, a `-` only as the first character, and every `.` is followed by a digit |
| LocationSyntax.HalfOnePoint | backends/weather.gov.go:124 | an accepted half holds at most one `.` |
| LocationSyntax.DigitFreeHalf | backends/weather.gov.go:124 | an accepted half with no digit is the empty string or a bare `-`, since `[0-9]*` may be empty |
| LocationSyntax.OneComma | backends/weather.gov.go:124 | an accepted location contains exactly one `,` |
| LocationSyntax.Alphabet | backends/weather.gov.go:124 | every character of an accepted location is a digit, `-`, `.` or `,`, so whitespace anywhere is rejected |
| LocationSyntax.MinusOpensHalf | backends/weather.gov.go:124 | a `-` at a position other than the first is always right after the comma |
| LocationSyntax.PointThenDigit | backends/weather.gov.go:124 | every `.` of an accepted location is followed by a digit, so `40.,-73` is rejected |
| LocationSyntax.OnePointPerHalf | backends/weather.gov.go:124 | of any two `.` in an accepted location, one is before the comma and one after |
| WeatherGov.Decide | backends/weather.gov.go:124-134 | a location outside the pattern is fatal whatever the scan says; an accepted one with a scan count other than 2 or a scan error gives empty data; only an accepted one with a clean two-value scan proceeds |
| WeatherGov.Fetch | backends/weather.gov.go:121-149 | each outcome happens exactly under its condition: the fatal exits for a rejected location, a failed grid request or a failed forecast request; empty data for a failed scan; the panic of the type assertion at :113 once the forecast decodes. Every normal return has no `GeoLoc`. The stages run in order: check, scan, grid request, forecast request, each only after the previous succeeded |
| WeatherGov.DigitFreeHalfGivesEmptyData | backends/weather.gov.go:124-132 | an accepted location with a half holding no digit, such as `,` or `-,-`, has an empty or bare-`-` half and ends in empty data after the scan, never in a network request or the fatal error, given that `%f` cannot read an empty field or a bare `-` |
| LocationExamples.SuggestedLocationAccepted | backends/weather.gov.go:124-125 | the example in the error message, `40.748,-73.985`, is accepted |
| LocationExamples.PlaceNameRejected | backends/weather.gov.go:124-125 | `New York` is rejected |
| LocationExamples.SpaceRejected | backends/weather.gov.go:124 | `40.7, -73.9` is rejected because of the space |
| LocationExamples.InnerMinusRejected | backends/weather.gov.go:124 | `4-0,1` is rejected |
| LocationExamples.TrailingPointRejected | backends/weather.gov.go:124 | `40.,-73` is rejected |
| LocationExamples.EmptyIntegerPartsAccepted | backends/weather.gov.go:124 | `.5,-.5` is accepted |
| LocationExamples.EmptyHalvesAccepted | backends/weather.gov.go:124 | `,` and `-,-` are accepted |
| LocationExamples.PlaceNameIsFatal | backends/weather.gov.go:124-126 | `Fetch("New York", …)` exits with the unsupported-location error after the check alone |
| LocationExamples.BareCommaGivesEmptyData | backends/weather.gov.go:124-132 | `Fetch(",", …)` returns empty data, not the fatal error |

## Left out

- The `err` result of `regexp.MatchString` is not modelled. The pattern is a valid constant, so compiling it never fails.
- Go's `$` without the multi-line flag matches only at the end of the text. The model accordingly rejects a trailing newline. Go's handling of invalid UTF-8 is not modelled; such bytes can never match the pattern.
- `fmt.Sscanf` with `%f,%f` is not modelled. Its count, error flag and the two float values are parameters. The one fact assumed about it is that `%f` cannot read a number from an empty field or a bare `-` (`WeatherGov.ScanRejectsEmptyOrSignField`). By `LocationSyntax.DigitFreeHalf` these are the only digit-free halves the pattern lets through, and `WeatherGov.DigitFreeHalfGivesEmptyData` derives the empty-data outcome from the two facts. Outside the pattern `%f` does read digit-free input such as `nan` and `inf`; the assumption says nothing about such strings.
- `float32` latitude and longitude are an opaque type parameter. The `%.4f` URL formatting of `fetchGrid` and the URL templates are not modelled.
- `fetchGrid` and `fetchForecast` (HTTP GET, status check, body reading, JSON decoding of `"properties"`) are network I/O. Each is modelled only as a success flag of `WeatherGov.Fetch`. The model does not capture the unexported `nwsGrid` fields that JSON decoding never fills.
- The type assertion `parsed["properties"].([]nwsResponse)` at `backends/weather.gov.go:113` panics every time the forecast decodes. A value decoded into `interface{}` is never a `[]nwsResponse`, and a missing key gives `nil`. `WeatherGov.Fetch` models this as the `Panicked` outcome. So lines 144-148 (`print(rawForecast)` and the setting of `GeoLoc`) are unreachable in the source, and the model has no outcome that carries a location.
- `parseForecast` is an empty stub that returns nothing, so there is no behaviour to model. `Fetch` does not call it.
- `log.Fatalf` process exit is modelled as an `Exit` outcome. The unreachable `print(rawForecast)` is not modelled.
- Registration of the backend in `init` is not modelled.
- `Fetch`'s `numdays` parameter is not read by the source. It is a parameter of `WeatherGov.Fetch` that the result does not depend on.
