/**
 * Properties of a scrape: which labels a table writes and with which values,
 * that sentinel and header records write nothing, that labels are never
 * removed, and how the two open failures and the read errors end a scrape.
 */
module ScrapeProperties {
  import opened Wrappers
  import opened ParseFloat
  import opened ScrapeSpec

  // ---------------------------------------------------------------- statistics records by label

  /** Read `x` is a statistics record that writes the request families at labels `k`. */
  predicate WritesStats(x: Read, k: RequestKey) {
    x.Record? && |x.fields| >= 2 && !IsStatsSentinel(x.fields) && (x.fields[0], x.fields[1]) == k
  }

  /** Labels that no record of the table writes keep what they had, absent ones stay absent. */
  lemma {:induction false} StatsUntouchedKey(m: Metrics, table: seq<Read>, f: Family, k: RequestKey)
    requires StatsReadable(table)
    requires forall j :: 0 <= j < |table| ==> !WritesStats(table[j], k)
    ensures k in ApplyStats(m, table).Requests(f) <==> k in m.Requests(f)
    ensures k in m.Requests(f) ==> ApplyStats(m, table).Requests(f)[k] == m.Requests(f)[k]
    decreases |table|
  {
    if table != [] {
      var prefix := table[..|table| - 1];
      assert forall j :: 0 <= j < |prefix| ==> prefix[j] == table[j];
      StatsUntouchedKey(m, prefix, f, k);
      var last := table[|table| - 1].fields;
      if !IsStatsSentinel(last) {
        assert !WritesStats(table[|table| - 1], k);
        StatsRowColumns(ApplyStats(m, prefix), last, f);
      }
    }
  }

  /** No statistics table removes a label from a request family. */
  lemma {:induction false} StatsKeepLabels(m: Metrics, table: seq<Read>, f: Family)
    requires StatsReadable(table)
    ensures m.Requests(f).Keys <= ApplyStats(m, table).Requests(f).Keys
    decreases |table|
  {
    if table != [] {
      var prefix := table[..|table| - 1];
      assert forall j :: 0 <= j < |prefix| ==> prefix[j] == table[j];
      StatsKeepLabels(m, prefix, f);
      var last := table[|table| - 1].fields;
      if !IsStatsSentinel(last) {
        StatsRowColumns(ApplyStats(m, prefix), last, f);
      }
    }
  }

  /** The last record of the table that writes labels `k` decides the value there. */
  lemma {:induction false} StatsLastWriteWins(m: Metrics, table: seq<Read>, f: Family, i: int, k: RequestKey)
    requires StatsReadable(table) && 0 <= i < |table| && WritesStats(table[i], k)
    requires forall j :: i < j < |table| ==> !WritesStats(table[j], k)
    ensures StatsReadOk(table[i])
    ensures k in ApplyStats(m, table).Requests(f)
    ensures ApplyStats(m, table).Requests(f)[k] == GetFloat64Element(table[i].fields, Column(f))
    decreases |table|
  {
    assert StatsReadOk(table[i]);
    var prefix := table[..|table| - 1];
    var last := table[|table| - 1].fields;
    var before := ApplyStats(m, prefix);
    assert ApplyStats(m, table) == ApplyStatsRow(before, last);
    if i == |table| - 1 {
      StatsRowColumns(before, last, f);
    } else {
      assert forall j :: 0 <= j < |prefix| ==> prefix[j] == table[j];
      StatsLastWriteWins(m, prefix, f, i, k);
      if !IsStatsSentinel(last) {
        assert !WritesStats(table[|table| - 1], k);
        StatsRowColumns(before, last, f);
      }
    }
  }

  /** Applying a table that ends in `x`: apply the rest, then `x`. */
  lemma StatsSnoc(m: Metrics, table: seq<Read>, x: Read)
    requires StatsReadable(table + [x])
    ensures StatsReadable(table) && StatsReadOk(x)
    ensures ApplyStats(m, table + [x]) == ApplyStatsRow(ApplyStats(m, table), x.fields)
  {
    var whole := table + [x];
    assert whole[..|whole| - 1] == table;
    assert whole[|whole| - 1] == x;
    assert forall j :: 0 <= j < |table| ==> table[j] == whole[j];
  }

  lemma StatsReadableSnoc(table: seq<Read>, x: Read)
    requires StatsReadable(table) && StatsReadOk(x)
    ensures StatsReadable(table + [x])
  {
    StatsInsertReadable(table, x, []);
    assert table + [x] + [] == table + [x];
  }

  /** Inserting a record the loop gets past keeps a table readable. */
  lemma StatsInsertReadable(before: seq<Read>, x: Read, after: seq<Read>)
    requires StatsReadable(before + after) && StatsReadOk(x)
    ensures StatsReadable(before + [x] + after)
  {
    var with := before + [x] + after;
    var without := before + after;
    forall j | 0 <= j < |with|
      ensures StatsReadOk(with[j])
    {
      if j < |before| {
        assert with[j] == without[j];
      } else if j > |before| {
        assert with[j] == without[j - 1];
      }
    }
  }

  /** A sentinel record ("Type" or "None") anywhere in the table changes nothing. */
  lemma {:induction false} StatsSentinelIgnored(m: Metrics, before: seq<Read>, x: Read, after: seq<Read>)
    requires StatsReadable(before + after)
    requires x.Record? && |x.fields| > 0 && IsStatsSentinel(x.fields)
    ensures StatsReadable(before + [x] + after)
    ensures ApplyStats(m, before + [x] + after) == ApplyStats(m, before + after)
    decreases |after|
  {
    StatsInsertReadable(before, x, after);
    if after == [] {
      assert before + [x] + after == before + [x];
      assert before + after == before;
      StatsSnoc(m, before, x);
    } else {
      var shorter, last := after[..|after| - 1], after[|after| - 1];
      assert before + [x] + after == (before + [x] + shorter) + [last];
      assert before + after == (before + shorter) + [last];
      StatsSnoc(m, before + [x] + shorter, last);
      StatsSnoc(m, before + shorter, last);
      StatsSentinelIgnored(m, before, x, shorter);
    }
  }

  // ---------------------------------------------------------------- failure records by label

  /** Read `x` is a failures record that writes the errors family at labels `k`. */
  predicate WritesError(x: Read, k: ErrorKey) {
    x.Record? && |x.fields| >= 3 && !IsFailuresHeader(x.fields) && (x.fields[0], x.fields[1], x.fields[2]) == k
  }

  lemma {:induction false} FailuresUntouchedKey(m: Metrics, table: seq<Read>, k: ErrorKey)
    requires FailuresReadable(table)
    requires forall j :: 0 <= j < |table| ==> !WritesError(table[j], k)
    ensures k in ApplyFailures(m, table).errors <==> k in m.errors
    ensures k in m.errors ==> ApplyFailures(m, table).errors[k] == m.errors[k]
    decreases |table|
  {
    if table != [] {
      var prefix := table[..|table| - 1];
      assert forall j :: 0 <= j < |prefix| ==> prefix[j] == table[j];
      FailuresUntouchedKey(m, prefix, k);
      var last := table[|table| - 1].fields;
      assert !WritesError(table[|table| - 1], k);
      var before := ApplyFailures(m, prefix);
      assert ApplyFailures(m, table) == ApplyFailuresRow(before, last);
      if !IsFailuresHeader(last) {
        assert (last[0], last[1], last[2]) != k;
      }
    }
  }

  lemma {:induction false} FailuresLastWriteWins(m: Metrics, table: seq<Read>, i: int, k: ErrorKey)
    requires FailuresReadable(table) && 0 <= i < |table| && WritesError(table[i], k)
    requires forall j :: i < j < |table| ==> !WritesError(table[j], k)
    ensures FailuresReadOk(table[i])
    ensures k in ApplyFailures(m, table).errors
    ensures ApplyFailures(m, table).errors[k] == GetFloat64Element(table[i].fields, 3)
    decreases |table|
  {
    assert FailuresReadOk(table[i]);
    var prefix := table[..|table| - 1];
    if i < |table| - 1 {
      assert forall j :: 0 <= j < |prefix| ==> prefix[j] == table[j];
      FailuresLastWriteWins(m, prefix, i, k);
      var last := table[|table| - 1].fields;
      assert !WritesError(table[|table| - 1], k);
      var before := ApplyFailures(m, prefix);
      assert ApplyFailures(m, table) == ApplyFailuresRow(before, last);
      if !IsFailuresHeader(last) {
        assert (last[0], last[1], last[2]) != k;
      }
    }
  }

  /** Applying a failures table that ends in `x`: apply the rest, then `x`. */
  lemma FailuresSnoc(m: Metrics, table: seq<Read>, x: Read)
    requires FailuresReadable(table + [x])
    ensures FailuresReadable(table) && FailuresReadOk(x)
    ensures ApplyFailures(m, table + [x]) == ApplyFailuresRow(ApplyFailures(m, table), x.fields)
  {
    var whole := table + [x];
    assert whole[..|whole| - 1] == table;
    assert whole[|whole| - 1] == x;
    assert forall j :: 0 <= j < |table| ==> table[j] == whole[j];
  }

  lemma FailuresReadableSnoc(table: seq<Read>, x: Read)
    requires FailuresReadable(table) && FailuresReadOk(x)
    ensures FailuresReadable(table + [x])
  {
    FailuresInsertReadable(table, x, []);
    assert table + [x] + [] == table + [x];
  }

  lemma FailuresInsertReadable(before: seq<Read>, x: Read, after: seq<Read>)
    requires FailuresReadable(before + after) && FailuresReadOk(x)
    ensures FailuresReadable(before + [x] + after)
  {
    var with := before + [x] + after;
    var without := before + after;
    forall j | 0 <= j < |with|
      ensures FailuresReadOk(with[j])
    {
      if j < |before| {
        assert with[j] == without[j];
      } else if j > |before| {
        assert with[j] == without[j - 1];
      }
    }
  }

  /** A header record ("Method") anywhere in the table changes nothing. */
  lemma {:induction false} FailuresHeaderIgnored(m: Metrics, before: seq<Read>, x: Read, after: seq<Read>)
    requires FailuresReadable(before + after)
    requires x.Record? && |x.fields| > 0 && IsFailuresHeader(x.fields)
    ensures FailuresReadable(before + [x] + after)
    ensures ApplyFailures(m, before + [x] + after) == ApplyFailures(m, before + after)
    decreases |after|
  {
    FailuresInsertReadable(before, x, after);
    if after == [] {
      assert before + [x] + after == before + [x];
      assert before + after == before;
      FailuresSnoc(m, before, x);
    } else {
      var shorter, last := after[..|after| - 1], after[|after| - 1];
      assert before + [x] + after == (before + [x] + shorter) + [last];
      assert before + after == (before + shorter) + [last];
      FailuresSnoc(m, before + [x] + shorter, last);
      FailuresSnoc(m, before + shorter, last);
      FailuresHeaderIgnored(m, before, x, shorter);
    }
  }

  // ---------------------------------------------------------------- whole scrapes

  /** A scrape that returns has counted itself exactly once and left the slave details alone. */
  lemma ScrapeCountsOnce(m: Metrics, stats: Option<seq<Read>>, failures: Option<seq<Read>>)
    requires ScrapeExit(stats, failures).Returned?
    ensures ScrapeMetrics(m, stats, failures).totalScrapes == m.totalScrapes + 1
    ensures ScrapeMetrics(m, stats, failures).slavesDetail == m.slavesDetail
  {
  }

  /** Statistics file not opened: health 0, only the counter moves, whatever the failures file holds. */
  lemma StatsUnopened(m: Metrics, failures: Option<seq<Read>>)
    ensures ScrapeExit(None, failures) == Returned(Down)
    ensures ScrapeMetrics(m, None, failures) == m.(totalScrapes := m.totalScrapes + 1)
  {
  }

  /** Failures file not opened: health 0, the statistics already applied stay, the errors family is untouched. */
  lemma FailuresUnopened(m: Metrics, table: seq<Read>)
    requires StatsReadable(table)
    ensures ScrapeExit(Some(table), None) == Returned(Down)
    ensures ScrapeMetrics(m, Some(table), None) == ApplyStats(m.(totalScrapes := m.totalScrapes + 1), table)
    ensures ScrapeMetrics(m, Some(table), None).errors == m.errors
  {
  }

  /** Health 1 exactly when both files opened and were read to end of file. */
  lemma HealthyIff(stats: Option<seq<Read>>, failures: Option<seq<Read>>)
    ensures ScrapeExit(stats, failures) == Returned(Up) <==>
      stats.Some? && failures.Some? && StatsReadable(stats.value) && FailuresReadable(failures.value)
  {
  }

  /** The process dies exactly when a file that opened cannot be read through; the failures file is read only after the statistics. */
  lemma FatalIff(stats: Option<seq<Read>>, failures: Option<seq<Read>>)
    ensures ScrapeExit(stats, failures) == Fatal <==>
      || (stats.Some? && !StatsReadable(stats.value))
      || (stats.Some? && StatsReadable(stats.value) && failures.Some? && !FailuresReadable(failures.value))
  {
  }

  /** No scrape removes a label from any family. */
  lemma ScrapeKeepsLabels(m: Metrics, stats: Option<seq<Read>>, failures: Option<seq<Read>>, f: Family)
    requires ScrapeExit(stats, failures).Returned?
    ensures m.Requests(f).Keys <= ScrapeMetrics(m, stats, failures).Requests(f).Keys
    ensures m.errors.Keys <= ScrapeMetrics(m, stats, failures).errors.Keys
  {
    var counted := m.(totalScrapes := m.totalScrapes + 1);
    assert counted.Requests(f) == m.Requests(f);
    if stats.Some? {
      StatsKeepLabels(counted, stats.value, f);
      ScrapeRequestsFromStats(m, stats, failures);
    }
  }

  /** Labels that this scrape's statistics do not mention keep their previous values: they are never cleared. */
  lemma ScrapeKeepsStaleStats(m: Metrics, stats: Option<seq<Read>>, failures: Option<seq<Read>>, f: Family, k: RequestKey)
    requires ScrapeExit(stats, failures).Returned?
    requires stats.Some? ==> forall j :: 0 <= j < |stats.value| ==> !WritesStats(stats.value[j], k)
    ensures k in ScrapeMetrics(m, stats, failures).Requests(f) <==> k in m.Requests(f)
    ensures k in m.Requests(f) ==> ScrapeMetrics(m, stats, failures).Requests(f)[k] == m.Requests(f)[k]
  {
    var counted := m.(totalScrapes := m.totalScrapes + 1);
    assert counted.Requests(f) == m.Requests(f);
    if stats.Some? {
      StatsUntouchedKey(counted, stats.value, f, k);
      ScrapeRequestsFromStats(m, stats, failures);
    }
  }

  /** After a scrape that returned, each label the statistics wrote holds the last value written there. */
  lemma ScrapeLatestStats(m: Metrics, stats: Option<seq<Read>>, failures: Option<seq<Read>>, f: Family, i: int, k: RequestKey)
    requires ScrapeExit(stats, failures).Returned? && stats.Some?
    requires 0 <= i < |stats.value| && WritesStats(stats.value[i], k)
    requires forall j :: i < j < |stats.value| ==> !WritesStats(stats.value[j], k)
    ensures StatsReadOk(stats.value[i])
    ensures k in ScrapeMetrics(m, stats, failures).Requests(f)
    ensures ScrapeMetrics(m, stats, failures).Requests(f)[k] == GetFloat64Element(stats.value[i].fields, Column(f))
  {
    var counted := m.(totalScrapes := m.totalScrapes + 1);
    StatsLastWriteWins(counted, stats.value, f, i, k);
    ScrapeRequestsFromStats(m, stats, failures);
  }

  /** A healthy scrape's request families are those the stats table leaves: the failures table does not touch them. */
  lemma ScrapeRequestsFromStats(m: Metrics, stats: Option<seq<Read>>, failures: Option<seq<Read>>)
    requires ScrapeExit(stats, failures).Returned? && stats.Some?
    ensures ScrapeMetrics(m, stats, failures).requests == ApplyStats(m.(totalScrapes := m.totalScrapes + 1), stats.value).requests
  {
  }

  /** After a healthy scrape, each error label of the failures table holds the last count written there. */
  lemma ScrapeLatestErrors(m: Metrics, stats: Option<seq<Read>>, failures: Option<seq<Read>>, i: int, k: ErrorKey)
    requires ScrapeExit(stats, failures) == Returned(Up) && failures.Some?
    requires 0 <= i < |failures.value| && WritesError(failures.value[i], k)
    requires forall j :: i < j < |failures.value| ==> !WritesError(failures.value[j], k)
    ensures FailuresReadOk(failures.value[i])
    ensures k in ScrapeMetrics(m, stats, failures).errors
    ensures ScrapeMetrics(m, stats, failures).errors[k] == GetFloat64Element(failures.value[i].fields, 3)
  {
    var counted := m.(totalScrapes := m.totalScrapes + 1);
    var afterStats := ApplyStats(counted, stats.value);
    FailuresLastWriteWins(afterStats, failures.value, i, k);
    ScrapeUpApplies(m, stats, failures);
  }

  /** A scrape that reports up applied both tables, stats first, to the counted store. */
  lemma ScrapeUpApplies(m: Metrics, stats: Option<seq<Read>>, failures: Option<seq<Read>>)
    requires ScrapeExit(stats, failures) == Returned(Up)
    ensures stats.Some? && failures.Some?
    ensures ScrapeMetrics(m, stats, failures) == ApplyFailures(ApplyStats(m.(totalScrapes := m.totalScrapes + 1), stats.value), failures.value)
  {
  }
}
