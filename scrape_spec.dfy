/**
 * What one scrape of the locust exporter does to its metric store, as pure
 * functions over a value `Metrics`, and the properties of a scrape.
 *
 * A scrape reads two CSV tables written by Locust: the aggregate request
 * statistics and the failures. Each table is given as it comes out of the CSV
 * reader: `None` when the file could not be opened, otherwise the sequence of
 * reads, each a record or a read error. The end of the sequence is end of file.
 */
module ScrapeSpec {
  import opened Wrappers
  import opened ParseFloat

  /** Labels of the request families: (method, name). */
  type RequestKey = (string, string)

  /** Labels of the errors family: (method, name, error). */
  type ErrorKey = (string, string, string)

  /** Labels of the slave detail family: (id, state). */
  type SlaveKey = (string, string)

  type Gauges = map<RequestKey, Num>

  /** The eleven gauge families fed from the statistics table. */
  datatype Family =
    | NumRequests | NumFailures | MedianResponseTime | AvgResponseTime
    | MinResponseTime | MaxResponseTime | AvgContentLength | CurrentRps
    | CurrentFailPerSec | Percentile50 | Percentile95

  /** The statistics column each family takes its value from; columns 12 to 15 feed nothing. */
  function Column(f: Family): (c: nat)
    ensures 2 <= c <= 11 || c == 16
  {
    match f
    case NumRequests => 2
    case NumFailures => 3
    case MedianResponseTime => 4
    case AvgResponseTime => 5
    case MinResponseTime => 6
    case MaxResponseTime => 7
    case AvgContentLength => 8
    case CurrentRps => 9
    case CurrentFailPerSec => 10
    case Percentile50 => 11
    case Percentile95 => 16
  }

  /** The eleven request families, each keyed by (method, name). */
  datatype RequestFamilies = RequestFamilies(
    numRequests: Gauges,
    numFailures: Gauges,
    medianResponseTime: Gauges,
    avgResponseTime: Gauges,
    minResponseTime: Gauges,
    maxResponseTime: Gauges,
    avgContentLength: Gauges,
    currentRps: Gauges,
    currentFailPerSec: Gauges,
    percentile50: Gauges,
    percentile95: Gauges)
  {
    function Get(f: Family): Gauges {
      match f
      case NumRequests => numRequests
      case NumFailures => numFailures
      case MedianResponseTime => medianResponseTime
      case AvgResponseTime => avgResponseTime
      case MinResponseTime => minResponseTime
      case MaxResponseTime => maxResponseTime
      case AvgContentLength => avgContentLength
      case CurrentRps => currentRps
      case CurrentFailPerSec => currentFailPerSec
      case Percentile50 => percentile50
      case Percentile95 => percentile95
    }
  }

  /** The metric store of the exporter: every gauge family and the scrape counter. */
  datatype Metrics = Metrics(
    requests: RequestFamilies,
    errors: map<ErrorKey, Num>,
    slavesDetail: map<SlaveKey, Num>,
    totalScrapes: nat)
  {
    function Requests(f: Family): Gauges {
      requests.Get(f)
    }
  }

  const NoRequests: RequestFamilies :=
    RequestFamilies(map[], map[], map[], map[], map[], map[], map[], map[], map[], map[], map[])

  /** The store a new exporter starts with: every family empty, no scrape counted. */
  const Initial: Metrics := Metrics(NoRequests, map[], map[], 0)

  /** One call of the CSV reader: a record, or an error (which ends the process). */
  datatype Read = Record(fields: seq<string>) | ReadError

  /** How a scrape ends: it returns the health value, or the process dies. */
  datatype ScrapeResult = Returned(up: Num) | Fatal

  const Down: Num := Finite(0.0)
  const Up: Num := Finite(1.0)

  /** `getFloat64Element`: the number in column `i` of a record, the parse error dropped. */
  function GetFloat64Element(record: seq<string>, i: nat): Num
    requires i < |record|
  {
    ParseNum(record[i])
  }

  /**
   * What `getFloat64Element` gives: 0 for a column that is not float text, the
   * exact value of the literal for a column that spells a decimal literal,
   * with or without `_` separators between its digits.
   */
  lemma GetFloat64ElementValue(record: seq<string>, i: nat)
    requires i < |record|
    ensures !IsFloatText(record[i]) ==> GetFloat64Element(record, i) == Zero
    ensures forall d :: WellFormed(d) && Text(d) == record[i] ==> GetFloat64Element(record, i) == Finite(DecimalValue(d))
    ensures SeparatorsOk(record[i]) ==>
      forall d :: WellFormed(d) && Text(d) == WithoutSeparators(record[i]) ==> GetFloat64Element(record, i) == Finite(DecimalValue(d))
  {
    if !IsFloatText(record[i]) {
      InvalidTextIsZero(record[i]);
    }
    forall d | WellFormed(d) && Text(d) == record[i]
      ensures GetFloat64Element(record, i) == Finite(DecimalValue(d))
    {
      ParseNumOfText(d);
    }
    if SeparatorsOk(record[i]) {
      SeparatorsDropped(record[i]);
      forall d | WellFormed(d) && Text(d) == WithoutSeparators(record[i])
        ensures GetFloat64Element(record, i) == Finite(DecimalValue(d))
      {
        ParseNumOfText(d);
      }
    }
  }

  // ---------------------------------------------------------------- the statistics table

  /** Records whose first field is "Type" (the header) or "None" are skipped. */
  predicate IsStatsSentinel(fields: seq<string>)
    requires |fields| > 0
  {
    fields[0] == "Type" || fields[0] == "None"
  }

  /** The number of fields a statistics record needs: the last one read is column 16. */
  const StatsWidth := 17

  /** A read the statistics loop gets past: a record that is a sentinel or has every column the loop reads. */
  predicate StatsReadOk(x: Read) {
    x.Record? && |x.fields| > 0 && (IsStatsSentinel(x.fields) || |x.fields| >= StatsWidth)
  }

  predicate StatsReadable(table: seq<Read>) {
    forall i :: 0 <= i < |table| ==> StatsReadOk(table[i])
  }

  /** Lines 230-241 of main.go for one record: a sentinel changes nothing, any other record sets all eleven request families at its labels. */
  function ApplyStatsRow(m: Metrics, fields: seq<string>): (m': Metrics)
    requires |fields| > 0 && (IsStatsSentinel(fields) || |fields| >= StatsWidth)
    ensures IsStatsSentinel(fields) ==> m' == m
    ensures m'.errors == m.errors && m'.slavesDetail == m.slavesDetail && m'.totalScrapes == m.totalScrapes
  {
    if IsStatsSentinel(fields) then m
    else
      var key := (fields[0], fields[1]);
      var r := m.requests;
      m.(requests := r.(
        numRequests := r.numRequests[key := GetFloat64Element(fields, 2)],
        numFailures := r.numFailures[key := GetFloat64Element(fields, 3)],
        medianResponseTime := r.medianResponseTime[key := GetFloat64Element(fields, 4)],
        avgResponseTime := r.avgResponseTime[key := GetFloat64Element(fields, 5)],
        minResponseTime := r.minResponseTime[key := GetFloat64Element(fields, 6)],
        maxResponseTime := r.maxResponseTime[key := GetFloat64Element(fields, 7)],
        avgContentLength := r.avgContentLength[key := GetFloat64Element(fields, 8)],
        currentRps := r.currentRps[key := GetFloat64Element(fields, 9)],
        currentFailPerSec := r.currentFailPerSec[key := GetFloat64Element(fields, 10)],
        percentile50 := r.percentile50[key := GetFloat64Element(fields, 11)],
        percentile95 := r.percentile95[key := GetFloat64Element(fields, 16)]))
  }

  /** The column mapping: a record that is not a sentinel sets family `f` at its labels to the number in column `Column(f)`. */
  lemma StatsRowColumns(m: Metrics, fields: seq<string>, f: Family)
    requires |fields| >= StatsWidth && !IsStatsSentinel(fields)
    ensures ApplyStatsRow(m, fields).Requests(f) == m.Requests(f)[(fields[0], fields[1]) := GetFloat64Element(fields, Column(f))]
  {
  }

  /** The statistics loop over a whole table read to end of file, records applied in order. */
  function ApplyStats(m: Metrics, table: seq<Read>): (m': Metrics)
    requires StatsReadable(table)
    ensures m'.errors == m.errors && m'.slavesDetail == m.slavesDetail && m'.totalScrapes == m.totalScrapes
    decreases |table|
  {
    if table == [] then m
    else ApplyStatsRow(ApplyStats(m, table[..|table| - 1]), table[|table| - 1].fields)
  }

  // ---------------------------------------------------------------- the failures table

  /** Records whose first field is "Method" (the header) are skipped. */
  predicate IsFailuresHeader(fields: seq<string>)
    requires |fields| > 0
  {
    fields[0] == "Method"
  }

  /** The number of fields a failures record needs: the last one read is column 3. */
  const FailuresWidth := 4

  predicate FailuresReadOk(x: Read) {
    x.Record? && |x.fields| > 0 && (IsFailuresHeader(x.fields) || |x.fields| >= FailuresWidth)
  }

  predicate FailuresReadable(table: seq<Read>) {
    forall i :: 0 <= i < |table| ==> FailuresReadOk(table[i])
  }

  /** Lines 262-264 of main.go for one record: the header changes nothing, any other record sets the errors family at its labels. */
  function ApplyFailuresRow(m: Metrics, fields: seq<string>): (m': Metrics)
    requires |fields| > 0 && (IsFailuresHeader(fields) || |fields| >= FailuresWidth)
    ensures IsFailuresHeader(fields) ==> m' == m
    ensures m' == m.(errors := m'.errors)
    ensures !IsFailuresHeader(fields) ==>
      m'.errors == m.errors[(fields[0], fields[1], fields[2]) := GetFloat64Element(fields, 3)]
  {
    if IsFailuresHeader(fields) then m
    else m.(errors := m.errors[(fields[0], fields[1], fields[2]) := GetFloat64Element(fields, 3)])
  }

  /** The failures loop over a whole table read to end of file. */
  function ApplyFailures(m: Metrics, table: seq<Read>): (m': Metrics)
    requires FailuresReadable(table)
    ensures m' == m.(errors := m'.errors)
    ensures m.errors.Keys <= m'.errors.Keys
    decreases |table|
  {
    if table == [] then m
    else ApplyFailuresRow(ApplyFailures(m, table[..|table| - 1]), table[|table| - 1].fields)
  }

  // ---------------------------------------------------------------- one scrape

  /** How a scrape ends. It depends on the inputs only, never on the store. */
  function ScrapeExit(stats: Option<seq<Read>>, failures: Option<seq<Read>>): ScrapeResult {
    if stats.None? then Returned(Down)
    else if !StatsReadable(stats.value) then Fatal
    else if failures.None? then Returned(Down)
    else if !FailuresReadable(failures.value) then Fatal
    else Returned(Up)
  }

  /** The store after a scrape that returned: the counter bumped first, then each table that opened applied. */
  function ScrapeMetrics(m: Metrics, stats: Option<seq<Read>>, failures: Option<seq<Read>>): Metrics
    requires ScrapeExit(stats, failures).Returned?
  {
    var counted := m.(totalScrapes := m.totalScrapes + 1);
    if stats.None? then counted
    else
      var afterStats := ApplyStats(counted, stats.value);
      if failures.None? then afterStats else ApplyFailures(afterStats, failures.value)
  }
}
