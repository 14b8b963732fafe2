# locust_exporter scrape, modelled in Dafny

The locust exporter publishes the statistics of a Locust load test as
Prometheus gauges. On every collection request it runs `scrape`. That call
counts itself, reads Locust's aggregate statistics CSV and its failures CSV
record by record, and sets labelled gauges. It returns a health value: 1 when
both files were read, 0 when one could not be opened. A CSV read error ends
the process.

This project models `scrape` and `getFloat64Element` from `main.go`. It takes
the shape of the metric store from `Exporter` and `NewExporter`.

- `wrappers.dfy` (module `Wrappers`): the `Option` type. `None` stands for a
  file that could not be opened.
- `parse_float.dfy` (module `ParseFloat`): `strconv.ParseFloat(s, 64)` with its
  error dropped, as the total function `ParseNum`. It covers Go's special
  spellings (`inf`, `infinity` with an optional sign, `nan`, in any case) and
  base-10 literals `[+|-][digits][.[digits]][(e|E)[+|-]digits]` with at least
  one mantissa digit, read to their exact value. As in Go's literal syntax, a
  `_` may stand between two digits and is then ignored; a `_` anywhere else
  makes the text invalid. Any other text, hexadecimal literals included,
  reads as 0. It also has a numeral writer,
  `NumeralText`/`TenthsText`, as the partner the round trips are proved
  against.
- `scrape_spec.dfy` (module `ScrapeSpec`): the store as a value `Metrics`,
  which holds the eleven request families, the errors family, the slave
  details and the scrape counter. One record, one table and one whole scrape
  are pure functions (`ApplyStatsRow`, `ApplyStats`, `ApplyFailuresRow`,
  `ApplyFailures`, `ScrapeExit`, `ScrapeMetrics`). Each table is given as the
  CSV reader would deliver it: `None` if the file did not open, otherwise the
  sequence of reads, each a record or a read error, ending at end of file.
- `scrape_properties.dfy` (module `ScrapeProperties`): the properties of a
  scrape, proved on those functions.
- `scrape_examples.dfy` (module `ScrapeExamples`): the two worked records of
  the Locust format.
- `exporter.dfy` (module `LocustExporter`): the class `Exporter`, whose fields
  are the gauge families. Its `Scrape` method has the source's early returns;
  its two read loops are the methods `SetStatsTable` and `SetErrorTable`,
  which stop where `scrape` would end the process. All are proved against
  `ScrapeExit`, `ScrapeMetrics` and the table functions.

`Fatal` covers two cases: a CSV read error (`log.Fatal`), and a record too
short for the columns `scrape` indexes (a Go index panic). In both cases the
process ends. After `Fatal`, the model states only that the counter was
bumped and that the slave details are untouched.

## Model

| member | source | states |
|---|---|---|
| LocustExporter.Exporter.constructor | main.go:42-165 | a new exporter has every gauge family empty and the scrape counter at 0 |
| LocustExporter.Exporter.Scrape | main.go:210-268 | the counter goes up by exactly one on every path, including the early returns and `Fatal`; the slave details never change; the outcome is `ScrapeExit` (0 if either file fails to open, `Fatal` on a read error or short record, else 1); on return the store is `ScrapeMetrics` of the old store |
| LocustExporter.Exporter.SetStatsTable | main.go:221-243 | the statistics loop reads to end of file if and only if every read is a record wide enough for the columns used (else it stops where `scrape` dies); the counter and slave details are untouched; a table read to the end leaves the store at `ApplyStats` of the old one (proved by its loop invariant) |
| LocustExporter.Exporter.SetErrorTable | main.go:253-265 | the failures loop reads to end of file if and only if every read is a record of at least four fields or the header; the request families, counter and slave details are untouched; a table read to the end leaves the store at `ApplyFailures` of the old one (proved by its loop invariant) |
| LocustExporter.Exporter.SetStatsRecord | main.go:230-241 | one statistics record updates the fields exactly as `ApplyStatsRow` does |
| LocustExporter.Exporter.SetErrorRecord | main.go:262-264 | one failures record updates the fields exactly as `ApplyFailuresRow` does |
| ScrapeSpec.GetFloat64ElementValue | main.go:206-209 | a column that is not float text reads as 0; a column that spells a decimal literal reads as that literal's exact value, also when `_` separators stand between its digits |
| ParseFloat.InvalidTextIsZero | main.go:207 | `ParseFloat` with its error dropped gives 0 for text that is neither a special spelling nor a base-10 decimal literal (with separators only between digits) |
| ParseFloat.SeparatorsDropped | main.go:207 | in a text whose every `_` stands between two digits, the separators do not change the value: it reads as the text without them |
| ParseFloat.SeparatedDigits | main.go:207 | two runs of digits joined by `_` read as the number the joined digits spell |
| ParseFloat.ReadDecimalOfText | main.go:207 | reading the text of any well-formed decimal literal gives back that literal |
| ParseFloat.ParseNumOfText | main.go:207 | the text of any decimal literal converts to the literal's exact value |
| ParseFloat.ParseNumOfDigits | main.go:207 | a run of digits converts to the natural number it spells |
| ParseFloat.NumeralText | main.go:207 | the numeral written for n is non-empty, all digits, and spells n |
| ParseFloat.ParseNumOfNumeral | main.go:207 | writing n as a numeral and parsing it back gives n |
| ParseFloat.ParseNumOfTenths | main.go:207 | writing n tenths with one fraction digit and parsing it back gives n / 10 |
| ScrapeSpec.Column | main.go:231-241 | each request family reads a column from 2 to 11, or column 16; columns 12 to 15 feed nothing |
| ScrapeSpec.ApplyStatsRow | main.go:230-241 | a record whose first field is "Type" or "None" changes nothing; no statistics record touches the errors, the slave details or the counter |
| ScrapeSpec.StatsRowColumns | main.go:231-241 | any other record sets family f, at labels (field 0, field 1), to `getFloat64Element` of column `Column(f)`, and leaves every other label of f as it was |
| ScrapeSpec.ApplyStats | main.go:221-243 | the statistics loop changes only the request families |
| ScrapeSpec.ApplyFailuresRow | main.go:262-264 | a record whose first field is "Method" changes nothing; any other record sets the errors family at (field 0, field 1, field 2) to `getFloat64Element` of column 3 and changes nothing else |
| ScrapeSpec.ApplyFailures | main.go:253-265 | the failures loop changes only the errors family and never removes an error label |
| ScrapeProperties.StatsKeepLabels | main.go:221-243 | no statistics table removes a label from a request family |
| ScrapeProperties.StatsUntouchedKey | main.go:221-243 | a label that no record of the table writes keeps its value, and an absent label stays absent |
| ScrapeProperties.StatsLastWriteWins | main.go:221-243 | when several records share (method, name), the last one decides every family's value there |
| ScrapeProperties.StatsSentinelIgnored | main.go:230 | inserting a "Type" or "None" record anywhere in a table changes neither its readability nor its result |
| ScrapeProperties.FailuresUntouchedKey | main.go:253-265 | an error label that no failures record writes keeps its value, and an absent one stays absent |
| ScrapeProperties.FailuresLastWriteWins | main.go:253-265 | when several failures records share (method, name, error), the last one decides the count |
| ScrapeProperties.FailuresHeaderIgnored | main.go:262 | inserting a "Method" record anywhere in a failures table changes neither its readability nor its result |
| ScrapeProperties.ScrapeCountsOnce | main.go:211 | a scrape that returns has bumped the counter by exactly one and left the slave details alone |
| ScrapeProperties.StatsUnopened | main.go:213-217 | statistics file not opened: health 0, and only the counter changes, whatever the failures input holds |
| ScrapeProperties.FailuresUnopened | main.go:245-249 | failures file not opened: health 0, the statistics are applied, and the errors family keeps its previous values |
| ScrapeProperties.HealthyIff | main.go:267 | health is 1 if and only if both files opened and both were read to end of file without a bad read |
| ScrapeProperties.FatalIff | main.go:224-229 | the process dies if and only if an opened statistics table has a bad read, or the statistics were fine and an opened failures table has one |
| ScrapeProperties.ScrapeKeepsLabels | main.go:210-268 | no scrape removes a label from any request family or from the errors family |
| ScrapeProperties.ScrapeKeepsStaleStats | main.go:221-243 | a label that this scrape's statistics do not mention keeps its previous value in every request family |
| ScrapeProperties.ScrapeLatestStats | main.go:221-243 | after a scrape that returned, a label written by the statistics holds the value from the last record that wrote it |
| ScrapeProperties.ScrapeLatestErrors | main.go:253-265 | after a healthy scrape, an error label holds the count from the last failures record that wrote it |
| ScrapeExamples.StatsRowExample | main.go:230-241 | the literal record `GET,/login,100,2,120,130,50,900,512,10.5,0.2,110,,,,,180` sets the eleven families at ("GET", "/login") to 100, 2, 120, 130, 50, 900, 512, 10.5, 0.2, 110 and 180, and changes nothing else in the store |
| ScrapeExamples.FailuresRowExample | main.go:262-263 | the literal record `POST,/cart,Connection refused,7` sets the errors family at ("POST", "/cart", "Connection refused") to 7, and changes nothing else in the store |
| ScrapeExamples.SeparatedColumnExample | main.go:206-209 | a column holding `1_000` reads as 1000 |

`GetFloat64Element`, `ParseNum`, `ScrapeExit` and `ScrapeMetrics` carry no
contract of their own; the lemma rows above state what they compute.
`GetFloat64Element` and `ParseNum` are covered by
`ScrapeSpec.GetFloat64ElementValue` and the `ParseFloat` rows. `ScrapeExit` is
covered by `ScrapeProperties.HealthyIff`, `FatalIff`, `StatsUnopened` and
`FailuresUnopened`. `ScrapeMetrics` is covered by those and by the `Scrape*`
lemmas of `ScrapeProperties`.

## Left out

- `main` (flag and environment parsing, the HTTP listener, the index page), `Describe` and `Collect` (they only forward descriptors and metrics to the Prometheus registry), and the metric names, help texts and registration in `NewExporter`. Each family is kept as a plain map with its label arity.
- `locustUp`: `scrape` never writes it. Its result is modelled as the return value of `Scrape`.
- `os.Open` and the `encoding/csv` tokenizer are inputs to `Scrape`. A file that fails to open is `None`. Every error the reader reports is a `ReadError`, including a record whose field count differs from the first record's.
- Log output (`log.Errorln`, `log.Fatal`) is left out; only the outcome is modelled.
- The state after `Fatal` is not modelled beyond the counter and the slave details, because the process ends there. With a short record, Go writes the families whose columns exist and then panics. The model stops before that record.
- ParseFloat.ParseNum: it gives the exact real value of a decimal literal, with no float64 rounding, no overflow to ±Inf and no signed zero. Hexadecimal float literals, which Go accepts, read as 0 here.
- Byte strings: Go strings are bytes, and the Prometheus client's `WithLabelValues` panics on a label value that is not valid UTF-8. Here a field is a sequence of Unicode characters, so that panic cannot arise in the model.
- Concurrency: `scrape` runs sequentially and takes no locks. Concurrent collection requests are out of scope.
- LocustExporter.Exporter.SetStatsRecord: the eleven request families are one field of type `RequestFamilies` rather than eleven object fields. Go's eleven `GaugeVec` pointers are never reassigned; only the vectors they point to change. Each family is still updated once per record, in the source's column order.
