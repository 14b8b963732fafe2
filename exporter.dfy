/**
 * The exporter object: its gauge families as fields updated in place, and
 * `scrape`, which reads the two Locust tables record by record and sets the
 * gauges as it goes.
 */
module LocustExporter {
  import opened Wrappers
  import opened ParseFloat
  import opened ScrapeSpec
  import opened ScrapeProperties

  class Exporter {
    /** The eleven request gauge families, keyed by (method, name). */
    var requests: RequestFamilies
    var errors: map<ErrorKey, Num>
    var slavesDetail: map<SlaveKey, Num>
    var totalScrapes: nat

    /** The metric store the fields hold. */
    function Snapshot(): Metrics
      reads this
    {
      Metrics(requests, errors, slavesDetail, totalScrapes)
    }

    /** `NewExporter`: every family registered and empty, the counter at zero. */
    constructor()
      ensures Snapshot() == Initial
    {
      requests := NoRequests;
      errors, slavesDetail, totalScrapes := map[], map[], 0;
    }

    /**
     * `scrape`: count the scrape, then read the statistics table and the
     * failures table to end of file, setting gauges record by record. It
     * returns 0 when a table cannot be opened and 1 when both were read; a read
     * error or a record too short for the columns read ends the process.
     */
    method Scrape(stats: Option<seq<Read>>, failures: Option<seq<Read>>) returns (result: ScrapeResult)
      modifies this
      ensures result == ScrapeExit(stats, failures)
      ensures totalScrapes == old(totalScrapes) + 1 && slavesDetail == old(slavesDetail)
      ensures result.Returned? ==> Snapshot() == ScrapeMetrics(old(Snapshot()), stats, failures)
    {
      totalScrapes := totalScrapes + 1;
      if stats.None? {
        return Returned(Down);
      }
      var statsRead := SetStatsTable(stats.value);
      if !statsRead {
        return Fatal;
      }
      if failures.None? {
        return Returned(Down);
      }
      var failuresRead := SetErrorTable(failures.value);
      if !failuresRead {
        return Fatal;
      }
      ScrapeUpApplies(old(Snapshot()), stats, failures);
      return Returned(Up);
    }

    /**
     * The first loop of `scrape`: the statistics records in order, until end
     * of file. It stops with false at the first read error or short record,
     * where `scrape` ends the process.
     */
    method SetStatsTable(table: seq<Read>) returns (readable: bool)
      modifies this
      ensures readable == StatsReadable(table)
      ensures totalScrapes == old(totalScrapes) && slavesDetail == old(slavesDetail)
      ensures readable ==> Snapshot() == ApplyStats(old(Snapshot()), table)
    {
      ghost var start := Snapshot();
      var i := 0;
      while i < |table|
        invariant 0 <= i <= |table|
        invariant StatsReadable(table[..i])
        invariant Snapshot() == ApplyStats(start, table[..i])
      {
        var x := table[i];
        if x.ReadError? || |x.fields| == 0 || (!IsStatsSentinel(x.fields) && |x.fields| < StatsWidth) {
          assert !StatsReadOk(table[i]);
          return false;
        }
        SetStatsRecord(x.fields);
        StatsReadableSnoc(table[..i], x);
        assert table[..i + 1] == table[..i] + [x];
        StatsSnoc(start, table[..i], x);
        i := i + 1;
      }
      assert table[..i] == table;
      return true;
    }

    /** The second loop of `scrape`, over the failures records, in the same way. */
    method SetErrorTable(table: seq<Read>) returns (readable: bool)
      modifies this
      ensures readable == FailuresReadable(table)
      ensures requests == old(requests) && totalScrapes == old(totalScrapes) && slavesDetail == old(slavesDetail)
      ensures readable ==> Snapshot() == ApplyFailures(old(Snapshot()), table)
    {
      ghost var start := Snapshot();
      var j := 0;
      while j < |table|
        invariant 0 <= j <= |table|
        invariant FailuresReadable(table[..j])
        invariant requests == old(requests) && totalScrapes == old(totalScrapes) && slavesDetail == old(slavesDetail)
        invariant Snapshot() == ApplyFailures(start, table[..j])
      {
        var x := table[j];
        if x.ReadError? || |x.fields| == 0 || (!IsFailuresHeader(x.fields) && |x.fields| < FailuresWidth) {
          assert !FailuresReadOk(table[j]);
          return false;
        }
        SetErrorRecord(x.fields);
        FailuresReadableSnoc(table[..j], x);
        assert table[..j + 1] == table[..j] + [x];
        FailuresSnoc(start, table[..j], x);
        j := j + 1;
      }
      assert table[..j] == table;
      return true;
    }

    /** Lines 230-241 of `scrape`: a sentinel changes nothing, any other statistics record sets the eleven request families at its labels. */
    method SetStatsRecord(record: seq<string>)
      requires |record| > 0 && (IsStatsSentinel(record) || |record| >= StatsWidth)
      modifies this
      ensures Snapshot() == ApplyStatsRow(old(Snapshot()), record)
    {
      if !IsStatsSentinel(record) {
        var key := (record[0], record[1]);
        var r := requests;
        r := r.(numRequests := r.numRequests[key := GetFloat64Element(record, 2)]);
        r := r.(numFailures := r.numFailures[key := GetFloat64Element(record, 3)]);
        r := r.(medianResponseTime := r.medianResponseTime[key := GetFloat64Element(record, 4)]);
        r := r.(avgResponseTime := r.avgResponseTime[key := GetFloat64Element(record, 5)]);
        r := r.(minResponseTime := r.minResponseTime[key := GetFloat64Element(record, 6)]);
        r := r.(maxResponseTime := r.maxResponseTime[key := GetFloat64Element(record, 7)]);
        r := r.(avgContentLength := r.avgContentLength[key := GetFloat64Element(record, 8)]);
        r := r.(currentRps := r.currentRps[key := GetFloat64Element(record, 9)]);
        r := r.(currentFailPerSec := r.currentFailPerSec[key := GetFloat64Element(record, 10)]);
        r := r.(percentile50 := r.percentile50[key := GetFloat64Element(record, 11)]);
        r := r.(percentile95 := r.percentile95[key := GetFloat64Element(record, 16)]);
        requests := r;
      }
    }

    /** Lines 262-264 of `scrape`: one failures record sets the errors family at its labels. */
    method SetErrorRecord(record: seq<string>)
      requires |record| > 0 && (IsFailuresHeader(record) || |record| >= FailuresWidth)
      modifies this
      ensures Snapshot() == ApplyFailuresRow(old(Snapshot()), record)
    {
      if !IsFailuresHeader(record) {
        errors := errors[(record[0], record[1], record[2]) := GetFloat64Element(record, 3)];
      }
    }
  }
}
