# RAPL energy exporter: sanitiser and scrape, modelled in Dafny

The exporter reads the Linux powercap (RAPL) energy counters and publishes, for each
zone, a Prometheus counter `node_rapl_<zone>_joules_total` labelled with the zone's
index and sysfs path. This project models its two pieces of logic in `main.go`:

- `SanitizeMetricName` (`metric_name.dfy`, module `MetricName`): RE2 `ReplaceAllString` with
  the pattern `_*[^0-9A-Za-z_]+_*` and the replacement `"_"`, as an explicit
  left-to-right scanner over runes. `MatchEnd` finds the match at a position. The
  lemmas `MatchEndSound` and `MatchEndGreedy` prove that this is the match that
  leftmost-first greedy matching picks there, and that no longer match exists.
- `RaplCollector.Update` and `joulesMetric` (`rapl.dfy`, module `Rapl`). `Update` is an
  imperative method with a loop that sends metrics on a `Channel` object. It is
  proved against `Scrape`/`EmitZones`, the functional reading of the same control
  flow, and lemmas state which metrics a scrape sends, in what order, and which error
  it returns. `Itoa` for the index label is in `decimal.dfy` (module `Decimal`),
  with its decimal reading as a round-trip partner.

Inputs that come from the filesystem are parameters here. A `Discovery` value stands
for the result of `sysfs.GetRaplZones`: the zones, or an error classified as
not-exist, permission or other. Each `Zone` carries `Name`, `Index` and `Path`, plus
the result `GetEnergyMicrojoules` gives during this scrape.

The counter is published as read: `Update` converts the raw cumulative microjoule
value to joules. There is no per-zone state, no delta and no wraparound correction
in `main.go`, so none is modelled. Also, a zone whose counter cannot be read does
not only drop that zone's metric. It ends the scrape: zones after it are not
reported either, and `ErrNoData` (permission) or the read error is returned.

## Model

| member | source | states |
|---|---|---|
| `MetricName.MatchEnd` | main.go:28 | the end of the pattern's match at a position, or the position itself when none starts there; specified by `MatchEndSound` and `MatchEndGreedy` |
| `MetricName.MatchEndSound` | main.go:28 | when the scanner reports a match at position i, the matched text is underscores, then at least one rune outside `[0-9A-Za-z_]`, then underscores, i.e. it is in the pattern's language |
| `MetricName.MatchEndGreedy` | main.go:28 | every match of the pattern at position i has exactly the scanner's leading underscores, no more invalid runes and ends no later, so the scanner's match is the leftmost-first greedy one and the longest; no match exists where the scanner finds none |
| `MetricName.SanitizeFrom` | main.go:47-49 | the replace-all scan from a position yields only `[0-9A-Za-z_]` runes, is no longer than the rest of the input, and is empty only at the end |
| `MetricName.Sanitize` | main.go:47-49 | the sanitised name holds only `[0-9A-Za-z_]`, is never longer than the input, and is empty exactly when the input is |
| `MetricName.SanitizeKeepsValid` | main.go:28 | a name made only of `[0-9A-Za-z_]` is returned unchanged, since every match needs an invalid rune |
| `MetricName.SanitizeIdempotent` | main.go:47-49 | sanitising an already sanitised name changes nothing |
| `MetricName.SanitizeKeepsAlnums` | main.go:28 | the letters and digits of the output are exactly those of the input, in the same order: matches contain only underscores and invalid runes |
| `MetricName.SanitizeCollapsesMatch` | main.go:47-49 | a maximal run of invalid runes together with all the underscores on both sides of it is replaced by exactly one `_`, and the scan resumes right after it |
| `MetricName.SanitizeCollapsesRun` | main.go:28 | an example of the collapse: `"a_-_b"` becomes `"a_b"` |
| `Decimal.NatToString` | main.go:103 | the numeral of a natural number is non-empty and all digits, starts with `0` only for zero, and is exactly `"0"` for zero |
| `Decimal.Itoa` | main.go:103 | `strconv.Itoa` output is non-empty, starts with `-` exactly for negative numbers, and is otherwise digits with no leading zero except for 0 itself |
| `Decimal.ItoaRoundTrip` | main.go:103 | the index label reads back as the zone's index |
| `Decimal.ItoaInjective` | main.go:103 | zones with different indices get different index labels |
| `Rapl.BuildFQName` | main.go:105-109 | `prometheus.BuildFQName`: joins the non-empty parts with `_`; what it yields for this call is stated by `JoulesMetric` |
| `Rapl.JoulesMetric` | main.go:102-121 | the metric is a counter named `node_rapl_` + sanitised zone name + `_joules_total`, which is always a valid Prometheus metric name; its help text names the zone; its label names are `index`, `path` and its label values, one per label name, are `Itoa` of the zone's index (which reads back as the index) and its path; its value is the zone's own reading |
| `Rapl.DiscoveryError` | main.go:73-82 | the error for a failed zone discovery; specified by `ScrapeDiscoveryFailed` |
| `Rapl.ReadError` | main.go:87-92 | the error for a failed counter read; specified by `EmitFirstFailure` |
| `Rapl.EmitZones` | main.go:85-99 | the emission loop over the zones as a function; specified by `EmitAllReadable`, `EmitFirstFailure` and `EmitSucceedsIffAllReadable` |
| `Rapl.Scrape` | main.go:70-100 | one scrape as a function of what discovery returned; specified by `ScrapeDiscoveryFailed` and, through `EmitZones`, by the emission lemmas; `Update` is proved equal to it |
| `Rapl.ScrapeDiscoveryFailed` | main.go:72-83 | a discovery failure sends nothing; the result is `ErrNoData` exactly for not-exist and permission errors, and the error wrapped with "failed to retrieve rapl stats" otherwise |
| `Rapl.EmitAllReadable` | main.go:85-99 | when every counter reads, exactly one metric per zone is sent, in zone order, each built from that zone's own reading, and nil is returned |
| `Rapl.EmitFirstFailure` | main.go:85-93 | at the first zone whose read fails, exactly the metrics of the earlier zones have been sent, nothing for it or later zones, and the result is `ErrNoData` for a permission error and the read error itself otherwise |
| `Rapl.EmitSucceedsIffAllReadable` | main.go:85-99 | the scrape returns nil if and only if every zone's counter reads |
| `Rapl.Channel.Send` | main.go:97 | sending appends the metric to what the channel has received |
| `Rapl.Update` | main.go:70-100 | the collector's scrape appends to the channel exactly the metrics `Scrape` describes, after what was there before, and returns its error |

## Left out

- `main`, the HTTP handler, `ListenAndServe` and the Prometheus registry (main.go:150-160): process startup and transport.
- `NewRaplCollector` (main.go:51-67), `sysfs.NewFS`, `GetRaplZones` and `GetEnergyMicrojoules` (main.go:72, 86): filesystem access through a library. Their results are the `Discovery` and `Reading` inputs. The collector's fields are therefore not used, so `Update` is a module-level method.
- The conversion `float64(microJoules) / 1000000.0` (main.go:95): floating point. The metric carries the integer microjoule count it is computed from.
- Logging (main.go:75, 79, 89, 129), `Describe` (main.go:123-125) and `Collect`, which only logs `Update`'s error (main.go:127-131).
- Channel and goroutine semantics: the channel is a sequence that sends append to, in order. Blocking and concurrent scrapes are not modelled.
- Go's error values are reduced to their `errors.Is` classification (`FsError`). A wrapped error keeps only its message prefix and its cause.
- Strings are sequences of runes. Go's UTF-8 decoding details, such as an invalid byte reading as U+FFFD, are not modelled.
- `prometheus.BuildFQName` is a library function. `BuildFQName` follows its definition: it joins the non-empty parts with `_` and returns "" for an empty name. Checks done inside `NewDesc` and `MustNewConstMetric` are not modelled. Instead, `JoulesMetric` proves the facts those checks depend on: the name is valid and the label counts match.
